/** IntrinsicGas (core/state_transition.go) with the constants of params/protocol_params.go. */
module IntrinsicGas {
  const MAX_UINT64: nat := 0xFFFF_FFFF_FFFF_FFFF
  const TX_GAS: nat := 21000
  const TX_GAS_CONTRACT_CREATION: nat := 53000
  const TX_DATA_ZERO_GAS: nat := 4
  const TX_DATA_NON_ZERO_GAS: nat := 68

  function NonZeroBytes(data: seq<bv8>): (n: nat)
    ensures n <= |data|
  {
    if data == [] then 0 else NonZeroBytes(data[..|data| - 1]) + if data[|data| - 1] != 0 then 1 else 0
  }

  /** The price of a message in exact arithmetic. */
  function ExactPrice(data: seq<bv8>, contractCreation: bool, homestead: bool): nat {
    (if contractCreation && homestead then TX_GAS_CONTRACT_CREATION else TX_GAS)
    + NonZeroBytes(data) * TX_DATA_NON_ZERO_GAS
    + (|data| - NonZeroBytes(data)) * TX_DATA_ZERO_GAS
  }

  /** A message without data costs the base price, and every byte adds its own. */
  lemma PriceOfByte(data: seq<bv8>, b: bv8, contractCreation: bool, homestead: bool)
    ensures ExactPrice([], contractCreation, homestead) == if contractCreation && homestead then 53000 else 21000
    ensures ExactPrice(data + [b], contractCreation, homestead)
            == ExactPrice(data, contractCreation, homestead) + if b == 0 then 4 else 68
  {
    assert (data + [b])[..|data|] == data;
  }

  /** Computes the exact price in 64-bit arithmetic, failing exactly when it does not fit. */
  method Compute(data: seq<bv8>, contractCreation: bool, homestead: bool) returns (ok: bool, gas: nat)
    requires |data| <= MAX_UINT64
    ensures ok <==> ExactPrice(data, contractCreation, homestead) <= MAX_UINT64
    ensures ok ==> gas == ExactPrice(data, contractCreation, homestead)
  {
    gas := if contractCreation && homestead then TX_GAS_CONTRACT_CREATION else TX_GAS;
    if |data| > 0 {
      var nz := 0;
      for i := 0 to |data|
        invariant nz == NonZeroBytes(data[..i])
      {
        assert data[..i + 1][..i] == data[..i];
        if data[i] != 0 {
          nz := nz + 1;
        }
      }
      assert data[..|data|] == data;
      if (MAX_UINT64 - gas) / TX_DATA_NON_ZERO_GAS < nz {
        return false, 0;
      }
      gas := gas + nz * TX_DATA_NON_ZERO_GAS;
      var z := |data| - nz;
      if (MAX_UINT64 - gas) / TX_DATA_ZERO_GAS < z {
        return false, 0;
      }
      gas := gas + z * TX_DATA_ZERO_GAS;
    }
    ok := true;
  }
}
