/** Byte values, the usual option type, and a few helpers. */
module Common {

  type byte = x: int | 0 <= x < 256

  type Bytes = seq<byte>

  const U32_LIMIT := 0x1_0000_0000
  const U32_MAX := U32_LIMIT - 1

  datatype Option<+T> = None | Some(value: T) {
    function GetOr(default: T): T {
      if Some? then value else default
    }
  }

  function Min(a: int, b: int): int { if a <= b then a else b }

  function Max(a: int, b: int): int { if a <= b then b else a }

  lemma ScaleMono(c: nat, a: nat, b: nat)
    requires a <= b
    ensures c * a <= c * b
  {
    assert c * (b - a) >= 0;
  }

  lemma Assoc<T>(a: seq<T>, b: seq<T>, c: seq<T>)
    ensures (a + b) + c == a + (b + c)
  {
  }
}
