/** Headers by hash, and the branch from genesis to a header. Hashes are collision free: a hash names one header. */
module ChainStore {
  import opened Wrappers

  type Hash = nat

  /** The zero hash, which a failed read returns. */
  const NO_HASH: Hash := 0

  datatype Header = Header(hash: Hash, parent: Hash, number: nat, difficulty: nat)

  type Headers = map<Hash, Header>

  /** A read by hash and number. */
  function Lookup(headers: Headers, hash: Hash, number: int): (r: Option<Header>)
    ensures r.Some? <==> hash in headers && headers[hash].number == number
    ensures r.Some? ==> r.value == headers[hash]
  {
    if hash in headers && headers[hash].number == number then Some(headers[hash]) else None
  }

  /** A header is filed under its own hash, and all but genesis have a stored parent one number below. */
  ghost predicate Linked(headers: Headers, genesis: Hash, h: Hash)
    requires h in headers
  {
    && h != NO_HASH && headers[h].hash == h
    && (h == genesis ==> headers[h].number == 0)
    && (h != genesis ==>
          && headers[h].number > 0 && headers[h].parent in headers
          && headers[headers[h].parent].number == headers[h].number - 1)
  }

  /** Every stored header leads, one number at a time, to genesis. */
  ghost predicate Rooted(headers: Headers, genesis: Hash) {
    && genesis in headers
    && forall h {:trigger Linked(headers, genesis, h)} :: h in headers ==> Linked(headers, genesis, h)
  }

  /** The hashes from genesis to h; position n holds the ancestor of number n. */
  ghost function Path(headers: Headers, genesis: Hash, h: Hash): (p: seq<Hash>)
    requires Rooted(headers, genesis) && h in headers
    ensures |p| == headers[h].number + 1 && p[|p| - 1] == h && p[0] == genesis
    decreases headers[h].number
  {
    assert Linked(headers, genesis, h);
    if h == genesis then [h] else Path(headers, genesis, headers[h].parent) + [h]
  }

  /** The sum of the difficulties on the branch. */
  ghost function TotalDifficulty(headers: Headers, genesis: Hash, h: Hash): nat
    requires Rooted(headers, genesis) && h in headers
    decreases headers[h].number
  {
    assert Linked(headers, genesis, h);
    headers[h].difficulty + if h == genesis then 0 else TotalDifficulty(headers, genesis, headers[h].parent)
  }

  /** The branch of an ancestor is a prefix of the branch. */
  lemma {:induction false} PathOfAncestor(headers: Headers, genesis: Hash, h: Hash, n: nat)
    requires Rooted(headers, genesis) && h in headers && n <= headers[h].number
    ensures var p := Path(headers, genesis, h);
            p[n] in headers && headers[p[n]].number == n && Path(headers, genesis, p[n]) == p[..n + 1]
    decreases headers[h].number
  {
    var p := Path(headers, genesis, h);
    assert Linked(headers, genesis, h);
    if n == headers[h].number {
      assert p[..n + 1] == p;
    } else {
      PathOfAncestor(headers, genesis, headers[h].parent, n);
      assert p[..n + 1] == Path(headers, genesis, headers[h].parent)[..n + 1];
    }
  }

  /** Two branches that agree at a height agree below it. */
  lemma PathsMeet(headers: Headers, genesis: Hash, a: Hash, b: Hash, n: nat)
    requires Rooted(headers, genesis) && a in headers && b in headers
    requires n <= headers[a].number && n <= headers[b].number
    requires Path(headers, genesis, a)[n] == Path(headers, genesis, b)[n]
    ensures Path(headers, genesis, a)[..n + 1] == Path(headers, genesis, b)[..n + 1]
  {
    PathOfAncestor(headers, genesis, a, n);
    PathOfAncestor(headers, genesis, b, n);
  }

  /** Storing a header with a stored parent keeps the store rooted, and every branch and its difficulty. */
  lemma {:induction false} StoredHeader(headers: Headers, genesis: Hash, header: Header)
    requires Rooted(headers, genesis) && header.hash != NO_HASH
    requires header.hash in headers ==> headers[header.hash] == header
    requires header.number > 0 && header.parent in headers && headers[header.parent].number == header.number - 1
    ensures Rooted(headers[header.hash := header], genesis)
    ensures var more := headers[header.hash := header];
            Path(more, genesis, header.hash) == Path(more, genesis, header.parent) + [header.hash]
  {
    var more := headers[header.hash := header];
    forall h | h in more ensures Linked(more, genesis, h) {
      if h in headers {
        assert Linked(headers, genesis, h);
      }
    }
    assert Linked(headers, genesis, genesis);
  }

  lemma {:induction false} BranchKept(headers: Headers, more: Headers, genesis: Hash, h: Hash)
    requires Rooted(headers, genesis) && Rooted(more, genesis) && h in headers
    requires forall k :: k in headers ==> k in more && more[k] == headers[k]
    ensures h in more && Path(more, genesis, h) == Path(headers, genesis, h)
    ensures TotalDifficulty(more, genesis, h) == TotalDifficulty(headers, genesis, h)
    decreases headers[h].number
  {
    assert more[h] == headers[h] && Linked(headers, genesis, h);
    if h != genesis {
      BranchKept(headers, more, genesis, headers[h].parent);
    }
  }

  /** n steps towards genesis, if the headers are there. */
  ghost function Walk(headers: Headers, hash: Hash, number: int, steps: nat): Option<(Hash, int)>
    decreases steps
  {
    if steps == 0 then Some((hash, number)) else
    match Lookup(headers, hash, number)
    case None => None
    case Some(header) => Walk(headers, header.parent, number - 1, steps - 1)
  }

  /** On stored headers, walking back is indexing the branch. */
  lemma {:induction false} WalkIsPath(headers: Headers, genesis: Hash, h: Hash, steps: nat)
    requires Rooted(headers, genesis) && h in headers && steps <= headers[h].number
    ensures Walk(headers, h, headers[h].number, steps)
            == Some((Path(headers, genesis, h)[headers[h].number - steps], headers[h].number - steps))
    decreases steps
  {
    if steps > 0 {
      assert Linked(headers, genesis, h);
      WalkIsPath(headers, genesis, headers[h].parent, steps - 1);
    }
  }
}
