/** H.264 framing: AVCC (length-prefixed NAL units) to Annex B (start codes) on the sending
    side, Annex B back to AVCC in the camera decoder. */
module Nal {
  import opened Common

  const START_CODE: Bytes := [0, 0, 0, 1]

  /** `len as u32`, big-endian. */
  function Be32(n: nat): (r: Bytes)
    ensures |r| == 4 && (n < U32_LIMIT ==> FromBe32(r) == n) && FromBe32(r) == n % U32_LIMIT
  {
    var m := n % U32_LIMIT;
    var hi, lo := m / 0x1_0000, m % 0x1_0000;
    [hi / 0x100, hi % 0x100, lo / 0x100, lo % 0x100]
  }

  function FromBe32(b: Bytes): nat
    requires |b| == 4
  {
    (b[0] as int) * 0x100_0000 + (b[1] as int) * 0x1_0000 + (b[2] as int) * 0x100 + b[3]
  }

  /** The four bytes of a length, most significant first. */
  ghost predicate Prefix(len: int, a: byte, b: byte, c: byte, d: byte) {
    len == ((a * 256 + b) * 256 + c) * 256 + d
  }

  lemma PrefixBytes(n: nat)
    ensures var r := Be32(n); Prefix(n % 0x1_0000_0000, r[0], r[1], r[2], r[3]) && r == [r[0], r[1], r[2], r[3]]
  {
  }

  /** Two bytes of a number. */
  lemma TwoBytes(q: nat, b: byte)
    ensures (q * 256 + b) / 256 == q && (q * 256 + b) % 256 == b
  {
  }

  lemma Halves(hi: nat, lo: nat)
    requires lo < 0x1_0000
    ensures (hi * 0x1_0000 + lo) / 0x1_0000 == hi && (hi * 0x1_0000 + lo) % 0x1_0000 == lo
  {
  }

  lemma PrefixIs(n: nat, a: byte, b: byte, c: byte, d: byte)
    requires Prefix(n, a, b, c, d)
    ensures Be32(n) == [a, b, c, d] && FromBe32([a, b, c, d]) == n && n < U32_LIMIT
  {
    var hi, lo := a * 256 + b, c * 256 + d;
    assert n == hi * 0x1_0000 + lo;
    Halves(hi, lo);
    TwoBytes(a, b);
    TwoBytes(c, d);
    Be32OfHalves(n, hi, lo);
  }

  lemma Be32OfHalves(n: nat, hi: nat, lo: nat)
    requires n < U32_LIMIT && n / 0x1_0000 == hi && n % 0x1_0000 == lo
    ensures Be32(n) == [hi / 256, hi % 256, lo / 256, lo % 256]
  {
    assert n % U32_LIMIT == n;
  }

  /** Length-prefixed form of a list of NAL units. */
  ghost function Avcc(nals: seq<Bytes>): Bytes {
    if nals == [] then [] else Be32(|nals[0]|) + nals[0] + Avcc(nals[1..])
  }

  /** Annex B form of a list of NAL units. */
  ghost function Print(nals: seq<Bytes>): Bytes {
    if nals == [] then [] else START_CODE + nals[0] + Print(nals[1..])
  }

  // ---------------------------------------------------------------------------
  // AVCC to Annex B
  // ---------------------------------------------------------------------------

  /** The NAL units of `avcc`, up to the first one that overruns the buffer. */
  ghost function ParseAvcc(avcc: Bytes): seq<Bytes>
    decreases |avcc|
  {
    if 4 > |avcc| then []
    else
      var end := 4 + FromBe32(avcc[..4]);
      if end > |avcc| then [] else [avcc[4..end]] + ParseAvcc(avcc[end..])
  }

  ghost function AnnexB(avcc: Bytes, parameterSets: seq<Bytes>, isKeyframe: bool): Bytes {
    Print((if isKeyframe then parameterSets else []) + ParseAvcc(avcc))
  }

  lemma {:induction false} PrintSnoc(nals: seq<Bytes>, n: Bytes)
    ensures Print(nals + [n]) == Print(nals) + START_CODE + n
  {
    if nals == [] {
      assert Print([n][1..]) == [];
    } else {
      assert (nals + [n])[1..] == nals[1..] + [n];
      PrintSnoc(nals[1..], n);
    }
  }

  /** One turn of the conversion loop. */
  lemma ParseStep(avcc: Bytes, i: nat, len: nat)
    requires i + 4 <= |avcc| && len == FromBe32(avcc[i..i + 4])
    ensures ParseAvcc(avcc[i..])
         == if i + 4 + len > |avcc| then [] else [avcc[i + 4..i + 4 + len]] + ParseAvcc(avcc[i + 4 + len..])
  {
    var b := avcc[i..];
    assert b[..4] == avcc[i..i + 4];
    if i + 4 + len <= |avcc| {
      assert b[4..4 + len] == avcc[i + 4..i + 4 + len];
      assert b[4 + len..] == avcc[i + 4 + len..];
    }
  }

  /** The same, read from position i of the buffer. */
  ghost function ParseFrom(avcc: Bytes, i: nat): seq<Bytes>
    requires i <= |avcc|
    decreases |avcc| - i
  {
    if i + 4 > |avcc| then []
    else
      var end := i + 4 + FromBe32(avcc[i..i + 4]);
      if end > |avcc| then [] else [avcc[i + 4..end]] + ParseFrom(avcc, end)
  }

  lemma {:induction false} ParseFromIs(avcc: Bytes, i: nat)
    requires i <= |avcc|
    ensures ParseFrom(avcc, i) == ParseAvcc(avcc[i..])
    decreases |avcc| - i
  {
    if i + 4 <= |avcc| {
      var len := FromBe32(avcc[i..i + 4]);
      if i + 4 + len <= |avcc| {
        ParseFromIs(avcc, i + 4 + len);
      }
      ParseSame(avcc, i, len);
    }
  }

  /** One unit, the same for both. */
  lemma ParseSame(avcc: Bytes, i: nat, len: nat)
    requires i + 4 <= |avcc| && len == FromBe32(avcc[i..i + 4])
    requires i + 4 + len <= |avcc| ==> ParseFrom(avcc, i + 4 + len) == ParseAvcc(avcc[i + 4 + len..])
    ensures ParseFrom(avcc, i) == ParseAvcc(avcc[i..])
  {
    ParseStep(avcc, i, len);
    ParseFromUnfold(avcc, i, len);
  }

  lemma ParseFromUnfold(avcc: Bytes, i: nat, len: nat)
    requires i + 4 <= |avcc| && len == FromBe32(avcc[i..i + 4])
    ensures ParseFrom(avcc, i)
         == if i + 4 + len > |avcc| then [] else [avcc[i + 4..i + 4 + len]] + ParseFrom(avcc, i + 4 + len)
  {
  }

  lemma ParseFromStep(avcc: Bytes, i: nat, len: nat, printed: seq<Bytes>)
    requires i + 4 <= |avcc| && len == FromBe32(avcc[i..i + 4])
    ensures printed + ParseFrom(avcc, i)
         == if i + 4 + len > |avcc| then printed else printed + [avcc[i + 4..i + 4 + len]] + ParseFrom(avcc, i + 4 + len)
  {
    if i + 4 + len <= |avcc| {
      Assoc(printed, [avcc[i + 4..i + 4 + len]], ParseFrom(avcc, i + 4 + len));
    } else {
      assert printed + [] == printed;
    }
  }

  lemma PrintOneMore(printed: seq<Bytes>, nal: Bytes, out: Bytes)
    requires out == Print(printed)
    ensures out + START_CODE + nal == Print(printed + [nal])
  {
    PrintSnoc(printed, nal);
  }

  method AppendUnit(before: Bytes, nal: Bytes) returns (out: Bytes)
    ensures out == before + START_CODE + nal
  {
    out := before + START_CODE;
    out := out + nal;
  }

  method AvccToAnnexB(avcc: Bytes, parameterSets: seq<Bytes>, isKeyframe: bool) returns (out: Bytes)
    ensures out == AnnexB(avcc, parameterSets, isKeyframe)
  {
    out := [];
    ghost var done: seq<Bytes> := [];
    if isKeyframe {
      for k := 0 to |parameterSets|
        invariant done == parameterSets[..k] && out == Print(done)
      {
        PrintSnoc(done, parameterSets[k]);
        out := AppendUnit(out, parameterSets[k]);
        done := done + [parameterSets[k]];
      }
    }
    assert done == if isKeyframe then parameterSets else [];
    assert avcc[0..] == avcc;
    ParseFromIs(avcc, 0);
    out := AppendUnits(out, avcc, done);
  }

  /** The loop over the access unit; `done` are the units printed before. */
  method AppendUnits(before: Bytes, avcc: Bytes, ghost done: seq<Bytes>) returns (out: Bytes)
    requires before == Print(done)
    ensures out == Print(done + ParseFrom(avcc, 0))
  {
    out := before;
    ghost var printed, all := done, done + ParseFrom(avcc, 0);
    var i := 0;
    while i + 4 <= |avcc|
      invariant i <= |avcc| && out == Print(printed) && all == printed + ParseFrom(avcc, i)
      decreases |avcc| - i
    {
      var nalLen := FromBe32(avcc[i..i + 4]);
      ParseFromStep(avcc, i, nalLen, printed);
      i := i + 4;
      if i + nalLen > |avcc| {
        return;
      }
      var nal := avcc[i..i + nalLen];
      PrintOneMore(printed, nal, out);
      out := AppendUnit(out, nal);
      printed := printed + [nal];
      i := i + nalLen;
    }
    assert printed + [] == printed;
  }

  // ---------------------------------------------------------------------------
  // Scanning Annex B
  // ---------------------------------------------------------------------------

  /** Length of the start code at i, 0 when there is none. */
  function CodeLen(b: Bytes, i: nat): (r: nat)
    ensures r > 0 ==> i + r <= |b|
  {
    if i + 3 <= |b| && b[i] == 0 && b[i + 1] == 0 then
      if b[i + 2] == 1 then 3
      else if i + 4 <= |b| && b[i + 2] == 0 && b[i + 3] == 1 then 4 else 0
    else 0
  }

  /** The least position at or after `from` that holds a start code. */
  ghost predicate IsNextCode(b: Bytes, from: nat, r: Option<(nat, nat)>) {
    match r
    case Some((p, len)) => from <= p && CodeLen(b, p) == len > 0 && forall i :: from <= i < p ==> CodeLen(b, i) == 0
    case None => forall i :: from <= i ==> CodeLen(b, i) == 0
  }

  ghost function NextCode(b: Bytes, from: nat): (r: Option<(nat, nat)>)
    ensures IsNextCode(b, from, r)
    decreases |b| - from
  {
    if from + 3 > |b| then None
    else if CodeLen(b, from) > 0 then Some((from, CodeLen(b, from)))
    else NextCode(b, from + 1)
  }

  /** Bounds of the NAL unit that the iterator yields next. */
  ghost function NextNal(b: Bytes, pos: nat): (r: Option<(nat, nat)>)
    ensures r.Some? ==> pos < r.value.0 <= r.value.1 <= |b|
  {
    match NextCode(b, pos)
    case None => None
    case Some((p, len)) =>
      Some((p + len, match NextCode(b, p + len) case Some((next, _)) => next case None => |b|))
  }

  /** Everything the iterator yields from `pos` on. */
  ghost function Nals(b: Bytes, pos: nat): seq<Bytes>
    decreases |b| - pos
  {
    match NextNal(b, pos)
    case None => []
    case Some((start, end)) => [b[start..end]] + Nals(b, end)
  }

  class AnnexBNals {
    const buf: Bytes
    var pos: nat

    constructor (buf: Bytes)
      ensures this.buf == buf && pos == 0
    {
      this.buf := buf;
      pos := 0;
    }

    method NextStartCode(from: nat) returns (r: Option<(nat, nat)>)
      ensures IsNextCode(buf, from, r)
    {
      var i := from;
      while i + 3 <= |buf|
        invariant from <= i
        invariant forall k :: from <= k < i ==> CodeLen(buf, k) == 0
      {
        if buf[i] == 0 && buf[i + 1] == 0 {
          if buf[i + 2] == 1 {
            return Some((i, 3));
          }
          if i + 4 <= |buf| && buf[i + 2] == 0 && buf[i + 3] == 1 {
            return Some((i, 4));
          }
        }
        i := i + 1;
      }
      r := None;
    }

    method Next() returns (nal: Option<Bytes>)
      modifies this
      ensures nal == match NextNal(buf, old(pos)) case None => None case Some((s, e)) => Some(buf[s..e])
      ensures NextNal(buf, old(pos)).Some? ==> pos == NextNal(buf, old(pos)).value.1
      ensures NextNal(buf, old(pos)).None? ==> pos == old(pos)
    {
      var code := NextStartCode(pos);
      NextCodeUnique(buf, pos, code);
      if code.None? {
        return None;
      }
      var nalStart := code.value.0 + code.value.1;
      var following := NextStartCode(nalStart);
      NextCodeUnique(buf, nalStart, following);
      var nalEnd := match following case Some((next, _)) => next case None => |buf|;
      pos := nalEnd;
      nal := Some(buf[nalStart..nalEnd]);
    }
  }

  lemma NextCodeUnique(b: Bytes, from: nat, r: Option<(nat, nat)>)
    requires IsNextCode(b, from, r)
    ensures r == NextCode(b, from)
  {
    var c := NextCode(b, from);
    if r.Some? && c.Some? {
      assert r.value.0 == c.value.0;
    }
  }

  // ---------------------------------------------------------------------------
  // The camera decoder's intake
  // ---------------------------------------------------------------------------

  function NalType(nal: Bytes): int
    requires nal != []
  {
    nal[0] % 32
  }

  const SPS := 7
  const PPS := 8
  const AUD := 9

  /** Goes on to the decompressor: not empty, not a parameter set or delimiter. */
  predicate IsSlice(nal: Bytes) {
    nal != [] && NalType(nal) != SPS && NalType(nal) != PPS && NalType(nal) != AUD
  }

  ghost function Slices(nals: seq<Bytes>): seq<Bytes> {
    if nals == [] then []
    else (if IsSlice(nals[0]) then [nals[0]] else []) + Slices(nals[1..])
  }

  /** The last NAL unit of type t, if any; otherwise what was there before. */
  ghost function LastOfType(nals: seq<Bytes>, t: int, before: Option<Bytes>): Option<Bytes> {
    if nals == [] then before
    else
      var last := nals[|nals| - 1];
      if last != [] && NalType(last) == t then Some(last) else LastOfType(nals[..|nals| - 1], t, before)
  }

  class H264Decoder {
    var sps: Option<Bytes>
    var pps: Option<Bytes>

    constructor ()
      ensures sps == None && pps == None
    {
      sps, pps := None, None;
    }

    method TakeNal(nal: Bytes, avcc: Bytes) returns (more: Bytes)
      modifies this
      ensures more == avcc + if IsSlice(nal) then Be32(|nal|) + nal else []
      ensures nal == [] || nal[0] % 32 in {7, 8, 9} ==> more == avcc
      ensures nal != [] && nal[0] % 32 !in {7, 8, 9} ==> exists a, b, c, d ::
                Prefix(|nal| % 0x1_0000_0000, a, b, c, d) && more == avcc + [a, b, c, d] + nal
      ensures sps == if nal != [] && nal[0] % 32 == 7 then Some(nal) else old(sps)
      ensures pps == if nal != [] && nal[0] % 32 == 8 then Some(nal) else old(pps)
    {
      more := avcc;
      if nal != [] {
        var t := NalType(nal);
        if t == SPS {
          sps := Some(nal);
        } else if t == PPS {
          pps := Some(nal);
        } else if t != AUD {
          PrefixBytes(|nal|);
          more := more + Be32(|nal|);
          more := more + nal;
        }
      }
    }

    /** The first part of `decode`: keep the parameter sets, re-frame the slices. */
    method TakeAccessUnit(annexb: Bytes) returns (avcc: Bytes)
      modifies this
      ensures avcc == Avcc(Slices(Nals(annexb, 0)))
      ensures sps == LastOfType(Nals(annexb, 0), SPS, old(sps))
      ensures pps == LastOfType(Nals(annexb, 0), PPS, old(pps))
    {
      avcc := [];
      var it := new AnnexBNals(annexb);
      ghost var seen: seq<Bytes> := [];
      while true
        invariant it.buf == annexb && fresh(it)
        invariant avcc == Avcc(Slices(seen))
        invariant sps == LastOfType(seen, SPS, old(sps)) && pps == LastOfType(seen, PPS, old(pps))
        invariant Nals(annexb, 0) == seen + Nals(annexb, it.pos)
        decreases |annexb| - it.pos
      {
        var next := it.Next();
        if next.None? {
          break;
        }
        var nal := next.value;
        avcc := TakeNal(nal, avcc);
        SliceSnoc(seen, nal);
        LastSnoc(seen, nal, SPS, old(sps));
        LastSnoc(seen, nal, PPS, old(pps));
        Assoc(seen, [nal], Nals(annexb, it.pos));
        seen := seen + [nal];
      }
      assert seen + [] == seen;
    }
  }

  lemma {:induction false} AvccAppend(a: seq<Bytes>, b: seq<Bytes>)
    ensures Avcc(a + b) == Avcc(a) + Avcc(b)
  {
    if a == [] {
      assert a + b == b;
    } else {
      assert (a + b)[1..] == a[1..] + b;
      AvccAppend(a[1..], b);
    }
  }

  lemma {:induction false} SlicesAppend(a: seq<Bytes>, b: seq<Bytes>)
    ensures Slices(a + b) == Slices(a) + Slices(b)
  {
    if a == [] {
      assert a + b == b;
    } else {
      assert (a + b)[1..] == a[1..] + b;
      SlicesAppend(a[1..], b);
    }
  }

  lemma SliceSnoc(seen: seq<Bytes>, nal: Bytes)
    ensures Avcc(Slices(seen + [nal])) == Avcc(Slices(seen)) + if IsSlice(nal) then Be32(|nal|) + nal else []
  {
    SlicesAppend(seen, [nal]);
    AvccAppend(Slices(seen), Slices([nal]));
    assert Slices([nal][1..]) == [] && Avcc([nal][1..]) == [];
    if IsSlice(nal) {
      assert Slices([nal]) == [nal];
      assert Avcc([nal]) == Be32(|nal|) + nal;
    }
  }

  lemma LastSnoc(seen: seq<Bytes>, nal: Bytes, t: int, before: Option<Bytes>)
    ensures LastOfType(seen + [nal], t, before)
         == if nal != [] && NalType(nal) == t then Some(nal) else LastOfType(seen, t, before)
  {
    assert (seen + [nal])[..|seen|] == seen;
  }

  lemma Peel(b: Bytes, p: nat, x: Bytes, y: Bytes)
    requires p <= |b| && b[p..] == x + y
    ensures p + |x| <= |b| && b[p..p + |x|] == x && b[p + |x|..] == y
  {
    assert b[p..p + |x|] == b[p..][..|x|];
    assert b[p + |x|..] == b[p..][|x|..];
  }

  // ---------------------------------------------------------------------------
  // What scanning any buffer yields
  // ---------------------------------------------------------------------------

  ghost predicate CodeFree(nal: Bytes) {
    forall i :: 0 <= i && i + 3 <= |nal| ==> !(nal[i] == 0 && nal[i + 1] == 0 && nal[i + 2] == 1)
  }

  /** The start codes in front of `Nals(b, pos)`. */
  ghost function Codes(b: Bytes, pos: nat): seq<Bytes>
    decreases |b| - pos
  {
    match NextNal(b, pos)
    case None => []
    case Some((_, end)) =>
      var (p, len) := NextCode(b, pos).value;
      [b[p..p + len]] + Codes(b, end)
  }

  ghost function Interleave(codes: seq<Bytes>, nals: seq<Bytes>): Bytes
    requires |codes| == |nals|
  {
    if codes == [] then [] else codes[0] + nals[0] + Interleave(codes[1..], nals[1..])
  }

  /** What lies between two neighbouring start codes holds none. */
  lemma BetweenCodesFree(b: Bytes, start: nat, end: nat)
    requires start <= end <= |b| && forall i :: start <= i < end ==> CodeLen(b, i) == 0
    ensures CodeFree(b[start..end])
  {
    forall i | 0 <= i && i + 3 <= end - start
      ensures !(b[start..end][i] == 0 && b[start..end][i + 1] == 0 && b[start..end][i + 2] == 1)
    {
      assert CodeLen(b, start + i) == 0;
    }
  }

  lemma CodeBytes(b: Bytes, p: nat)
    requires CodeLen(b, p) > 0
    ensures var c := b[p..p + CodeLen(b, p)]; c == [0, 0, 1] || c == START_CODE
  {
  }

  /** One unit: its code, its bytes, and what follows. */
  lemma UnitAt(b: Bytes, pos: nat)
    requires NextCode(b, pos).Some?
    ensures var (p, len), (start, end) := NextCode(b, pos).value, NextNal(b, pos).value;
            && b[p..] == b[p..p + len] + b[start..end] + b[end..] && CodeFree(b[start..end])
            && (b[p..p + len] == [0, 0, 1] || b[p..p + len] == START_CODE)
            && match NextCode(b, end) case None => b[end..] == [] case Some((q, _)) => q == end
  {
    var (p, len) := NextCode(b, pos).value;
    var (start, end) := NextNal(b, pos).value;
    var following := NextCode(b, start);
    CodeBytes(b, p);
    BetweenCodesFree(b, start, end);
    assert b[p..] == b[p..p + len] + b[start..end] + b[end..];
    NextCodeUnique(b, end, following);
  }

  /** For any bytes: codes and NAL units alternate from the first start code to the end of the
      buffer with nothing lost, every code is one of the two forms, and no NAL unit holds one. */
  lemma {:induction false} Tiling(b: Bytes, pos: nat)
    ensures |Codes(b, pos)| == |Nals(b, pos)|
    ensures forall c :: c in Codes(b, pos) ==> c == [0, 0, 1] || c == [0, 0, 0, 1]
    ensures forall n :: n in Nals(b, pos) ==> CodeFree(n)
    ensures match NextCode(b, pos)
            case None => Nals(b, pos) == []
            case Some((p, _)) => b[p..] == Interleave(Codes(b, pos), Nals(b, pos))
    decreases |b| - pos
  {
    if NextCode(b, pos).Some? {
      var (p, len) := NextCode(b, pos).value;
      var (start, end) := NextNal(b, pos).value;
      UnitAt(b, pos);
      Tiling(b, end);
      UnfoldNals(b, pos, b[p..p + len], b[start..end], end);
      InterleaveCons(b[p..p + len], b[start..end], Codes(b, end), Nals(b, end));
    }
  }

  lemma UnfoldNals(b: Bytes, pos: nat, code: Bytes, nal: Bytes, end: nat)
    requires NextCode(b, pos).Some? && NextNal(b, pos).value.1 == end
    requires var (p, len) := NextCode(b, pos).value; code == b[p..p + len]
    requires var (start, e) := NextNal(b, pos).value; nal == b[start..e]
    ensures Nals(b, pos) == [nal] + Nals(b, end) && Codes(b, pos) == [code] + Codes(b, end)
  {
  }

  lemma InterleaveCons(code: Bytes, nal: Bytes, codes: seq<Bytes>, nals: seq<Bytes>)
    requires |codes| == |nals|
    ensures Interleave([code] + codes, [nal] + nals) == code + nal + Interleave(codes, nals)
  {
    assert ([code] + codes)[1..] == codes && ([nal] + nals)[1..] == nals;
  }

  // ---------------------------------------------------------------------------
  // Printing and scanning
  // ---------------------------------------------------------------------------

  /** No start code begins inside a unit that holds none, when a 4-byte code or the end of the
      buffer follows it. */
  lemma NoCodeInside(b: Bytes, p: nat, e: nat, i: nat)
    requires p <= i < e <= |b| && CodeFree(b[p..e])
    requires e == |b| || (e + 4 <= |b| && b[e] == 0 && b[e + 1] == 0 && b[e + 2] == 0 && b[e + 3] == 1)
    ensures CodeLen(b, i) == 0
  {
    var nal := b[p..e];
    if i + 3 <= e {
      assert nal[i - p] == b[i] && nal[i - p + 1] == b[i + 1] && nal[i - p + 2] == b[i + 2];
      assert !(nal[i - p] == 0 && nal[i - p + 1] == 0 && nal[i - p + 2] == 1);
    }
    if i + 4 <= e {
      assert nal[i + 1 - p] == b[i + 1] && nal[i + 1 - p + 1] == b[i + 2] && nal[i + 1 - p + 2] == b[i + 3];
      assert !(nal[i + 1 - p] == 0 && nal[i + 1 - p + 1] == 0 && nal[i + 1 - p + 2] == 1);
    }
  }

  /** A start code that was printed with 4 bytes is found at its first byte, after a NAL unit
      without a code inside -- also when that unit is empty or ends in zeros. */
  lemma PrintedCode(b: Bytes, p: nat, nal: Bytes, rest: seq<Bytes>)
    requires p <= |b| && b[p..] == nal + Print(rest) && CodeFree(nal)
    ensures NextCode(b, p) == if rest == [] then None else Some((p + |nal|, 4))
  {
    var e := p + |nal|;
    Peel(b, p, nal, Print(rest));
    if rest != [] {
      Assoc(START_CODE, rest[0], Print(rest[1..]));
      Peel(b, e, START_CODE, rest[0] + Print(rest[1..]));
      CodeAt(b, e);
    }
    CodeAfter(b, p, e, rest == []);
  }

  lemma CodeAfter(b: Bytes, p: nat, e: nat, last: bool)
    requires p <= e <= |b| && CodeFree(b[p..e]) && (last ==> e == |b|)
    requires !last ==> e + 4 <= |b| && b[e] == 0 && b[e + 1] == 0 && b[e + 2] == 0 && b[e + 3] == 1
    ensures NextCode(b, p) == if last then None else Some((e, 4))
  {
    forall i | p <= i < e
      ensures CodeLen(b, i) == 0
    {
      NoCodeInside(b, p, e, i);
    }
    NextCodeUnique(b, p, if last then None else Some((e, 4)));
  }

  lemma CodeAt(b: Bytes, e: nat)
    requires e + 4 <= |b| && b[e..e + 4] == START_CODE
    ensures CodeLen(b, e) == 4 && b[e] == 0 && b[e + 1] == 0 && b[e + 2] == 0 && b[e + 3] == 1
  {
    var c := b[e..e + 4];
    assert c[0] == b[e] && c[1] == b[e + 1] && c[2] == b[e + 2] && c[3] == b[e + 3];
  }

  /** The first unit of a printed list, found by the iterator. */
  lemma PrintedStep(b: Bytes, p: nat, nal: Bytes, rest: seq<Bytes>)
    requires p <= |b| && b[p..] == START_CODE + (nal + Print(rest)) && CodeFree(nal)
    ensures NextNal(b, p) == Some((p + 4, p + 4 + |nal|))
    ensures p + 4 + |nal| <= |b| && b[p + 4..p + 4 + |nal|] == nal && b[p + 4 + |nal|..] == Print(rest)
  {
    Peel(b, p, START_CODE, nal + Print(rest));
    Peel(b, p + 4, nal, Print(rest));
    CodeAt(b, p);
    NextCodeUnique(b, p, Some((p, 4)));
    PrintedCode(b, p + 4, nal, rest);
  }

  lemma {:induction false} PrintedNals(b: Bytes, p: nat, nals: seq<Bytes>)
    requires p <= |b| && b[p..] == Print(nals) && forall n :: n in nals ==> CodeFree(n)
    ensures Nals(b, p) == nals
    decreases nals
  {
    if nals == [] {
      assert p == |b|;
    } else {
      Assoc(START_CODE, nals[0], Print(nals[1..]));
      PrintedStep(b, p, nals[0], nals[1..]);
      PrintedNals(b, p + 4 + |nals[0]|, nals[1..]);
    }
  }

  /** The scanner undoes the printer exactly on the lists without a code inside a unit. */
  lemma ScanUndoesPrint(nals: seq<Bytes>)
    ensures Nals(Print(nals), 0) == nals <==> forall n :: n in nals ==> CodeFree(n)
  {
    var b := Print(nals);
    if forall n :: n in nals ==> CodeFree(n) {
      assert b[0..] == b;
      PrintedNals(b, 0, nals);
    } else {
      Tiling(b, 0);
    }
  }

  // ---------------------------------------------------------------------------
  // Length prefixes
  // ---------------------------------------------------------------------------

  /** Reading back a length-prefixed list with anything after it. */
  lemma {:induction false} ParsedAvcc(nals: seq<Bytes>, tail: Bytes)
    requires forall n :: n in nals ==> |n| < U32_LIMIT
    ensures ParseAvcc(Avcc(nals) + tail) == nals + ParseAvcc(tail)
  {
    if nals == [] {
      assert Avcc(nals) + tail == tail;
    } else {
      assert [nals[0]] + nals[1..] == nals;
      ParsedHead(nals[0], Avcc(nals[1..]), tail);
      ParsedAvcc(nals[1..], tail);
      Assoc([nals[0]], nals[1..], ParseAvcc(tail));
    }
  }

  lemma ParsedHead(n: Bytes, more: Bytes, tail: Bytes)
    requires |n| < U32_LIMIT
    ensures ParseAvcc(Be32(|n|) + n + more + tail) == [n] + ParseAvcc(more + tail)
  {
    Assoc(Be32(|n|) + n, more, tail);
    Assoc(Be32(|n|), n, more + tail);
    ParsedUnit(n, more + tail);
  }

  lemma ParsedUnit(n: Bytes, rest: Bytes)
    requires |n| < U32_LIMIT
    ensures ParseAvcc(Be32(|n|) + (n + rest)) == [n] + ParseAvcc(rest)
  {
    var b := Be32(|n|) + (n + rest);
    assert b[..4] == Be32(|n|) && b[4..4 + |n|] == n && b[4 + |n|..] == rest;
  }

  /** The length prefixes give the list back exactly when every unit fits its 32-bit prefix. */
  lemma {:induction false} ParseUndoesAvcc(nals: seq<Bytes>)
    ensures ParseAvcc(Avcc(nals)) == nals <==> forall n :: n in nals ==> |n| < U32_LIMIT
  {
    if nals != [] {
      var n, rest := nals[0], Avcc(nals[1..]);
      Assoc(Be32(|n|), n, rest);
      assert nals == [n] + nals[1..];
      if |n| < U32_LIMIT {
        ParsedUnit(n, rest);
        ParseUndoesAvcc(nals[1..]);
      } else {
        assert Avcc(nals)[..4] == Be32(|n|);
        assert ParseAvcc(Avcc(nals)) == [] || |ParseAvcc(Avcc(nals))[0]| < U32_LIMIT;
      }
    }
  }

  lemma {:induction false} SlicesAll(nals: seq<Bytes>)
    ensures Slices(nals) == nals <==> forall n :: n in nals ==> IsSlice(n)
    ensures |Slices(nals)| <= |nals| && forall n :: n in Slices(nals) ==> n in nals && IsSlice(n)
  {
    if nals != [] {
      SlicesAll(nals[1..]);
      assert nals == [nals[0]] + nals[1..];
      if IsSlice(nals[0]) {
        assert Slices(nals)[1..] == Slices(nals[1..]);
      }
    }
  }

  /** What the camera decoder re-frames from the Annex B print of an AVCC access unit: the same
      AVCC, exactly when no unit holds a start code, is empty, or is a parameter set or
      delimiter.  (The converse is about access units below 4 GiB, whose pieces all fit their
      length prefix.) */
  lemma ReframeUndoesAnnexB(nals: seq<Bytes>)
    requires forall n :: n in nals ==> |n| < U32_LIMIT
    ensures var again := Avcc(Slices(Nals(AnnexB(Avcc(nals), [], false), 0)));
            && ((forall n :: n in nals ==> CodeFree(n) && IsSlice(n)) ==> again == Avcc(nals))
            && (|Print(nals)| < U32_LIMIT && again == Avcc(nals) ==> forall n :: n in nals ==> CodeFree(n) && IsSlice(n))
  {
    ParseUndoesAvcc(nals);
    assert [] + nals == nals;
    var b := Print(nals);
    var found := Nals(b, 0);
    var kept := Slices(found);
    SlicesAll(found);
    if forall n :: n in nals ==> CodeFree(n) && IsSlice(n) {
      ScanUndoesPrint(nals);
    }
    if |b| < U32_LIMIT && Avcc(kept) == Avcc(nals) {
      NalsFit(b, 0);
      ParseUndoesAvcc(kept);
      assert kept == nals;
      Tiling(b, 0);
    }
  }

  lemma {:induction false} NalsFit(b: Bytes, pos: nat)
    ensures forall n :: n in Nals(b, pos) ==> |n| <= |b|
    decreases |b| - pos
  {
    if NextNal(b, pos).Some? {
      NalsFit(b, NextNal(b, pos).value.1);
    }
  }

  // ---------------------------------------------------------------------------
  // The same on bytes
  // ---------------------------------------------------------------------------

  /** A unit behind its big-endian length becomes that unit behind a start code, and the rest
      follows; a length that overruns the buffer ends the conversion. */
  lemma UnitToAnnexB(a: byte, b: byte, c: byte, d: byte, nal: Bytes, rest: Bytes)
    ensures var len := ((a * 256 + b) * 256 + c) * 256 + d;
            && (|nal| == len ==> AnnexB([a, b, c, d] + nal, [], false) == [0, 0, 0, 1] + nal)
            && (|nal| == len ==>
                 AnnexB([a, b, c, d] + nal + rest, [], false) == [0, 0, 0, 1] + nal + AnnexB(rest, [], false))
            && (|nal| < len ==> AnnexB([a, b, c, d] + nal, [], false) == [])
            && (|rest| < 4 ==> AnnexB(rest, [], false) == [])
  {
    var len := ((a * 256 + b) * 256 + c) * 256 + d;
    PrefixIs(len, a, b, c, d);
    if |nal| == len {
      OneUnit([a, b, c, d], nal, rest);
      OneUnit([a, b, c, d], nal, []);
      assert [a, b, c, d] + nal + [] == [a, b, c, d] + nal;
      assert [0, 0, 0, 1] + nal + [] == [0, 0, 0, 1] + nal;
    } else if |nal| < len {
      assert ([a, b, c, d] + nal)[..4] == [a, b, c, d];
    }
  }

  lemma OneUnit(prefix: Bytes, nal: Bytes, rest: Bytes)
    requires |prefix| == 4 && FromBe32(prefix) == |nal|
    ensures AnnexB(prefix + nal + rest, [], false) == [0, 0, 0, 1] + nal + AnnexB(rest, [], false)
  {
    var all := prefix + nal + rest;
    assert all[..4] == prefix && all[4..4 + |nal|] == nal && all[4 + |nal|..] == rest;
    PrintCons(nal, ParseAvcc(rest));
    Unprefixed(rest);
    Unprefixed(all);
  }

  lemma Unprefixed(avcc: Bytes)
    ensures AnnexB(avcc, [], false) == Print(ParseAvcc(avcc))
  {
    assert [] + ParseAvcc(avcc) == ParseAvcc(avcc);
  }

  lemma PrintCons(nal: Bytes, rest: seq<Bytes>)
    ensures Print([nal] + rest) == [0, 0, 0, 1] + nal + Print(rest)
  {
    assert ([nal] + rest)[1..] == rest;
  }

  /** A keyframe's parameter sets come first, each behind a start code; other frames carry none. */
  lemma SetsToAnnexB(avcc: Bytes, first: Bytes, sets: seq<Bytes>)
    ensures AnnexB(avcc, [first] + sets, true) == [0, 0, 0, 1] + first + AnnexB(avcc, sets, true)
    ensures AnnexB(avcc, [], true) == AnnexB(avcc, [], false) == AnnexB(avcc, sets, false)
  {
    PrintCons(first, sets + ParseAvcc(avcc));
    Assoc([first], sets, ParseAvcc(avcc));
  }

  /** A length-prefixed keyframe starts with the big-endian length of its first parameter set. */
  lemma SetsToAvcc(data: Bytes, first: Bytes, sets: seq<Bytes>, a: byte, b: byte, c: byte, d: byte)
    requires |first| == ((a * 256 + b) * 256 + c) * 256 + d
    ensures FramePayload(LengthPrefixed, EncodedFrame(data, [first] + sets, true))
         == [a, b, c, d] + first + FramePayload(LengthPrefixed, EncodedFrame(data, sets, true))
    ensures FramePayload(LengthPrefixed, EncodedFrame(data, [], true)) == data
    ensures FramePayload(LengthPrefixed, EncodedFrame(data, sets, false)) == data
  {
    PrefixIs(|first|, a, b, c, d);
    AvccCons(first, sets);
    Assoc([a, b, c, d] + first, Avcc(sets), data);
    assert [] + data == data;
  }

  lemma AvccCons(nal: Bytes, rest: seq<Bytes>)
    ensures Avcc([nal] + rest) == Be32(|nal|) + nal + Avcc(rest)
  {
    assert ([nal] + rest)[1..] == rest;
  }

  /** What the camera decoder makes of the next unit: nothing of an empty one or one of type 7, 8
      or 9, otherwise its big-endian length and its bytes. */
  lemma UnitToAvcc(nal: Bytes, rest: seq<Bytes>, a: byte, b: byte, c: byte, d: byte)
    requires |nal| == ((a * 256 + b) * 256 + c) * 256 + d
    ensures Avcc(Slices([nal] + rest)) == if nal == [] || nal[0] % 32 in {7, 8, 9} then Avcc(Slices(rest))
                                          else [a, b, c, d] + nal + Avcc(Slices(rest))
  {
    assert ([nal] + rest)[1..] == rest;
    PrefixIs(|nal|, a, b, c, d);
    AvccCons(nal, Slices(rest));
    assert [] + Slices(rest) == Slices(rest);
  }

  /** From unit k on none is of type t. */
  ghost predicate NoneFrom(nals: seq<Bytes>, k: int, t: int) {
    forall i :: 0 <= i < |nals| && k <= i ==> nals[i] == [] || nals[i][0] % 32 != t
  }

  /** Unit k is `kept`, of type t, and no later one is. */
  ghost predicate LastIs(nals: seq<Bytes>, k: int, t: int, kept: Bytes) {
    0 <= k < |nals| && nals[k] == kept && kept != [] && kept[0] % 32 == t && NoneFrom(nals, k + 1, t)
  }

  /** `kept` is the unit of type t that no other follows, or what was there before if there is none. */
  ghost predicate KeptIs(nals: seq<Bytes>, t: int, before: Option<Bytes>, kept: Option<Bytes>) {
    (NoneFrom(nals, 0, t) && kept == before) || (kept.Some? && exists k :: LastIs(nals, k, t, kept.value))
  }

  lemma {:induction false} LastOfTypeLaw(nals: seq<Bytes>, t: int, before: Option<Bytes>)
    ensures KeptIs(nals, t, before, LastOfType(nals, t, before))
  {
    if nals != [] {
      var n := |nals| - 1;
      var front := nals[..n];
      assert nals == front + [nals[n]];
      LastOfTypeLaw(front, t, before);
      KeptSnoc(front, t, before, LastOfType(front, t, before), nals[n]);
    }
  }

  lemma KeptSnoc(front: seq<Bytes>, t: int, before: Option<Bytes>, kept: Option<Bytes>, last: Bytes)
    requires KeptIs(front, t, before, kept)
    ensures KeptIs(front + [last], t, before, if last != [] && NalType(last) == t then Some(last) else kept)
  {
    var nals := front + [last];
    if last != [] && NalType(last) == t {
      assert LastIs(nals, |front|, t, last);
    } else if NoneFrom(front, 0, t) && kept == before {
      NoneFromSnoc(front, 0, t, last);
    } else {
      var k :| LastIs(front, k, t, kept.value);
      NoneFromSnoc(front, k + 1, t, last);
      assert LastIs(nals, k, t, kept.value);
    }
  }

  lemma NoneFromSnoc(front: seq<Bytes>, k: int, t: int, last: Bytes)
    requires NoneFrom(front, k, t) && (last == [] || last[0] % 32 != t)
    ensures NoneFrom(front + [last], k, t)
  {
  }

  // ---------------------------------------------------------------------------
  // Payloads on the wire
  // ---------------------------------------------------------------------------

  datatype EncodedFrame = EncodedFrame(data: Bytes, parameterSets: seq<Bytes>, isKeyframe: bool)

  datatype WireFormat = LengthPrefixed | AnnexBFormat

  ghost function FramePayload(format: WireFormat, f: EncodedFrame): Bytes {
    match format
    case LengthPrefixed => (if f.isKeyframe then Avcc(f.parameterSets) else []) + f.data
    case AnnexBFormat => AnnexB(f.data, f.parameterSets, f.isKeyframe)
  }

  method BuildPayload(format: WireFormat, f: EncodedFrame) returns (out: Bytes)
    ensures out == FramePayload(format, f)
  {
    match format
    case LengthPrefixed =>
      if !f.isKeyframe || f.parameterSets == [] {
        return f.data;
      }
      out := [];
      for k := 0 to |f.parameterSets|
        invariant out == Avcc(f.parameterSets[..k])
      {
        var ps := f.parameterSets[k];
        assert f.parameterSets[..k + 1] == f.parameterSets[..k] + [ps];
        AvccAppend(f.parameterSets[..k], [ps]);
        assert Avcc([ps]) == Be32(|ps|) + ps by { assert Avcc([ps][1..]) == []; }
        out := out + Be32(|ps|);
        out := out + ps;
      }
      assert f.parameterSets[..|f.parameterSets|] == f.parameterSets;
      out := out + f.data;
    case AnnexBFormat =>
      out := AvccToAnnexB(f.data, f.parameterSets, f.isKeyframe);
  }

  /** The two wire formats carry the same units in the same order, for any encoder output,
      also one with a broken length in it. */
  lemma FormatsAgree(f: EncodedFrame)
    requires forall ps :: ps in f.parameterSets ==> |ps| < U32_LIMIT
    ensures AnnexB(FramePayload(LengthPrefixed, f), [], false) == FramePayload(AnnexBFormat, f)
  {
    var sets := if f.isKeyframe then f.parameterSets else [];
    ParsedAvcc(sets, f.data);
    assert [] + (sets + ParseAvcc(f.data)) == sets + ParseAvcc(f.data);
  }

  /** A keyframe sent as Annex B sets up a decoder: it ends with the frame's last SPS and PPS
      and passes on exactly the frame's own AVCC data. */
  lemma KeyframeReachesDecoder(sets: seq<Bytes>, nals: seq<Bytes>)
    requires forall n :: n in sets ==> n != [] && NalType(n) in {SPS, PPS} && CodeFree(n)
    requires forall n :: n in nals ==> IsSlice(n) && CodeFree(n) && |n| < U32_LIMIT
    ensures var found := Nals(FramePayload(AnnexBFormat, EncodedFrame(Avcc(nals), sets, true)), 0);
            && Avcc(Slices(found)) == Avcc(nals)
            && forall t, o :: t in {SPS, PPS} ==> LastOfType(found, t, o) == LastOfType(sets, t, o)
  {
    ParseUndoesAvcc(nals);
    ScanUndoesPrint(sets + nals);
    SlicesAppend(sets, nals);
    SlicesAll(nals);
    SlicesAll(sets);
    NoSlices(sets);
    assert [] + nals == nals;
    forall t, o | t in {SPS, PPS}
      ensures LastOfType(sets + nals, t, o) == LastOfType(sets, t, o)
    {
      LastSkipsSlices(sets, nals, t, o);
    }
  }

  lemma {:induction false} NoSlices(nals: seq<Bytes>)
    requires forall n :: n in nals ==> !IsSlice(n)
    ensures Slices(nals) == []
  {
    if nals != [] {
      NoSlices(nals[1..]);
    }
  }

  lemma {:induction false} LastSkipsSlices(sets: seq<Bytes>, nals: seq<Bytes>, t: int, o: Option<Bytes>)
    requires t in {SPS, PPS} && forall n :: n in nals ==> IsSlice(n)
    ensures LastOfType(sets + nals, t, o) == LastOfType(sets, t, o)
    decreases |nals|
  {
    if nals == [] {
      assert sets + nals == sets;
    } else {
      var last := nals[|nals| - 1];
      assert (sets + nals)[..|sets + nals| - 1] == sets + nals[..|nals| - 1];
      assert IsSlice(last) && (sets + nals)[|sets + nals| - 1] == last;
      LastSkipsSlices(sets, nals[..|nals| - 1], t, o);
    }
  }
}
