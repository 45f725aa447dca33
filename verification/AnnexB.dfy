/** Annex B of ITU-T H.264: NAL units separated by start codes. The scan is the
    one both the Rust crates (`annexb::nals`) and the JavaScript player run; the player
    then drops trailing zero bytes and empty units. */
module AnnexB {
  import opened Bytes

  /** The length of the start code that begins at `i`; 0 when none does. */
  function StartCodeAt(buf: seq<byte>, i: nat): (n: nat)
    ensures n > 0 ==> i + n <= |buf|
  {
    if i + 3 <= |buf| && buf[i] == 0 && buf[i + 1] == 0 then
      if buf[i + 2] == 1 then 3
      else if i + 4 <= |buf| && buf[i + 2] == 0 && buf[i + 3] == 1 then 4
      else 0
    else 0
  }

  /** The slices between start codes, for a scan at `i` inside a unit that began at `start`. */
  function SlicesFrom(buf: seq<byte>, start: nat, i: nat): (r: seq<seq<byte>>)
    requires start <= i <= |buf|
    decreases |buf| - i
  {
    if i == |buf| then [buf[start..]]
    else
      var sc := StartCodeAt(buf, i);
      if sc == 0 then SlicesFrom(buf, start, i + 1)
      else [buf[start..i]] + SlicesFrom(buf, i + sc, i + sc)
  }

  /** The slices after the first start code at or after `i`; bytes before it are in no unit. */
  function SlicesAfter(buf: seq<byte>, i: nat): (r: seq<seq<byte>>)
    requires i <= |buf|
    decreases |buf| - i
  {
    if i == |buf| then []
    else
      var sc := StartCodeAt(buf, i);
      if sc == 0 then SlicesAfter(buf, i + 1) else SlicesFrom(buf, i + sc, i + sc)
  }

  /** The unit slices of a buffer, empty ones included (`annexb::nals`). */
  function Slices(buf: seq<byte>): seq<seq<byte>> { SlicesAfter(buf, 0) }

  function Trimmed(nal: seq<byte>): (r: seq<byte>)
    ensures r <= nal && (r != [] ==> r[|r| - 1] != 0)
    ensures forall k | |r| <= k < |nal| :: nal[k] == 0
  {
    if nal != [] && nal[|nal| - 1] == 0 then Trimmed(nal[..|nal| - 1]) else nal
  }

  function TrimEach(slices: seq<seq<byte>>): (r: seq<seq<byte>>)
    ensures |r| == |slices|
  {
    if slices == [] then [] else [Trimmed(slices[0])] + TrimEach(slices[1..])
  }

  function NonEmpty(units: seq<seq<byte>>): (r: seq<seq<byte>>)
  {
    if units == [] then [] else (if units[0] == [] then [] else [units[0]]) + NonEmpty(units[1..])
  }

  /** The player's reading of an Annex B buffer: trailing zeros trimmed, empty units dropped. */
  function AnnexBUnits(buf: seq<byte>): seq<seq<byte>> { NonEmpty(TrimEach(Slices(buf))) }

  /** `trimTrailingZeros` */
  method TrimTrailingZeros(nal: seq<byte>) returns (r: seq<byte>)
    ensures r == Trimmed(nal)
  {
    var end := |nal|;
    while end > 0 && nal[end - 1] == 0
      invariant 0 <= end <= |nal|
      invariant Trimmed(nal[..end]) == Trimmed(nal)
    {
      assert nal[..end][..end - 1] == nal[..end - 1];
      end := end - 1;
    }
    r := nal[..end];
    assert nal[..|nal|] == nal;
  }

  lemma TrimEachCons(u: seq<byte>, rest: seq<seq<byte>>)
    ensures TrimEach([u] + rest) == [Trimmed(u)] + TrimEach(rest)
  {
    assert ([u] + rest)[1..] == rest;
  }

  lemma {:induction false} NonEmptySnoc(units: seq<seq<byte>>, u: seq<byte>)
    ensures NonEmpty(units + [u]) == NonEmpty(units) + (if u == [] then [] else [u])
  {
    if units == [] {
      assert units + [u] == [u];
    } else {
      NonEmptySnoc(units[1..], u);
      assert (units + [u])[1..] == units[1..] + [u];
    }
  }

  /** The final `filter`. */
  method DropEmpty(units: seq<seq<byte>>) returns (r: seq<seq<byte>>)
    ensures r == NonEmpty(units)
  {
    r := [];
    for k := 0 to |units|
      invariant r == NonEmpty(units[..k])
    {
      assert units[..k + 1] == units[..k] + [units[k]];
      NonEmptySnoc(units[..k], units[k]);
      if |units[k]| > 0 { r := r + [units[k]]; }
    }
    assert units[..|units|] == units;
  }

  /** What the rest of the scan contributes; `start` is -1 before the first start code. */
  ghost function Remaining(buf: seq<byte>, start: int, i: nat): seq<seq<byte>>
    requires i <= |buf| && start <= i
  {
    if start < 0 then SlicesAfter(buf, i) else SlicesFrom(buf, start, i)
  }

  /** `out` and what remains make up the whole scan. */
  ghost predicate Scanned(buf: seq<byte>, start: int, i: nat, out: seq<seq<byte>>) {
    i <= |buf| && start <= i && out + TrimEach(Remaining(buf, start, i)) == TrimEach(Slices(buf))
  }

  lemma Snoc<T>(a: seq<T>, x: T, b: seq<T>)
    ensures a + ([x] + b) == a + [x] + b
  {}

  lemma ScanStep(buf: seq<byte>, start: int, i: nat, out: seq<seq<byte>>)
    requires Scanned(buf, start, i, out) && i < |buf|
    ensures var sc := StartCodeAt(buf, i);
            if sc == 0 then Scanned(buf, start, i + 1, out)
            else Scanned(buf, i + sc, i + sc, if start < 0 then out else out + [Trimmed(buf[start..i])])
  {
    var sc := StartCodeAt(buf, i);
    if sc == 0 {
      assert Remaining(buf, start, i + 1) == Remaining(buf, start, i);
    } else if start < 0 {
      assert Remaining(buf, i + sc, i + sc) == Remaining(buf, start, i);
    } else {
      var unit, rest := buf[start..i], Remaining(buf, i + sc, i + sc);
      assert Remaining(buf, start, i) == [unit] + rest;
      TrimEachCons(unit, rest);
      Snoc(out, Trimmed(unit), TrimEach(rest));
    }
  }

  /** After the scan only the unit still open is missing. */
  lemma LastSlice(buf: seq<byte>, start: int, out: seq<seq<byte>>)
    requires Scanned(buf, start, |buf|, out)
    ensures start < 0 ==> AnnexBUnits(buf) == NonEmpty(out)
    ensures start >= 0 ==> AnnexBUnits(buf) == NonEmpty(out + [Trimmed(buf[start..])])
    ensures start == |buf| ==> AnnexBUnits(buf) == NonEmpty(out)
  {
    if start < 0 {
      assert out + [] == out;
    } else {
      assert Remaining(buf, start, |buf|) == [buf[start..]];
      assert TrimEach([buf[start..]]) == [Trimmed(buf[start..])];
      NonEmptySnoc(out, Trimmed(buf[start..]));
    }
  }

  /** The scan itself: the units ended by a start code, and where the last one starts. */
  method ScanUnits(buf: seq<byte>) returns (start: int, out: seq<seq<byte>>)
    ensures Scanned(buf, start, |buf|, out)
  {
    out := [];
    start := -1;
    var i := 0;
    while i < |buf|
      invariant 0 <= i <= |buf| && Scanned(buf, start, i, out)
    {
      ScanStep(buf, start, i, out);
      var sc := StartCodeAt(buf, i);
      if sc == 0 {
        i := i + 1;
        continue;
      }
      if start >= 0 {
        var nal := TrimTrailingZeros(buf[start..i]);
        out := out + [nal];
      }
      i := i + sc;
      start := i;
    }
  }

  /** The player's scan (`annexBNalUnits`). */
  method AnnexBNalUnits(buf: seq<byte>) returns (r: seq<seq<byte>>)
    ensures r == AnnexBUnits(buf)
  {
    var start, out := ScanUnits(buf);
    LastSlice(buf, start, out);
    if start >= 0 && start < |buf| {
      var nal := TrimTrailingZeros(buf[start..]);
      out := out + [nal];
    }
    r := DropEmpty(out);
  }

  /** 00 00 01 at `q - 2`: the position of a start code's last byte. */
  predicate CodeEndsAt(buf: seq<byte>, q: nat) {
    2 <= q < |buf| && buf[q - 2] == 0 && buf[q - 1] == 0 && buf[q] == 1
  }

  /** No 00 00 01 inside. */
  ghost predicate NoCode(nal: seq<byte>) {
    forall q | 0 <= q < |nal| :: !CodeEndsAt(nal, q)
  }

  /** A unit the player's reading can return: not empty, no trailing zero, no 00 00 01 inside. */
  ghost predicate Clean(nal: seq<byte>) {
    nal != [] && nal[|nal| - 1] != 0 && NoCode(nal)
  }

  /** Where a unit that began at `start` ends when its start code ends at `q`: a zero
      before 00 00 01 belongs to a 4-byte start code. */
  function UnitEnd(buf: seq<byte>, start: nat, q: nat): (e: nat)
    requires CodeEndsAt(buf, q) && start + 2 <= q
    ensures start <= e <= q - 2
  {
    if start + 3 <= q && buf[q - 3] == 0 then q - 3 else q - 2
  }

  /** The scan runs to the first start code: `q` is the first end of one after `start`. */
  lemma {:induction false} SliceToCode(buf: seq<byte>, start: nat, i: nat, q: nat)
    requires start + 2 <= q && CodeEndsAt(buf, q)
    requires forall p | start + 2 <= p < q :: !CodeEndsAt(buf, p)
    requires start <= i <= UnitEnd(buf, start, q)
    ensures SlicesFrom(buf, start, i) == [buf[start..UnitEnd(buf, start, q)]] + SlicesFrom(buf, q + 1, q + 1)
    decreases q - i
  {
    var e := UnitEnd(buf, start, q);
    if i < e {
      assert !CodeEndsAt(buf, i + 2);
      assert i + 3 <= q;
      assert i + 3 < q ==> !CodeEndsAt(buf, i + 3);
      SliceToCode(buf, start, i + 1, q);
    }
  }

  /** A scan that meets no further start code gives one last slice, all that is left. */
  lemma {:induction false} SliceToEnd(buf: seq<byte>, start: nat, i: nat)
    requires start <= i <= |buf|
    requires forall p | start + 2 <= p < |buf| :: !CodeEndsAt(buf, p)
    ensures SlicesFrom(buf, start, i) == [buf[start..]]
    decreases |buf| - i
  {
    if i < |buf| {
      assert i + 2 < |buf| ==> !CodeEndsAt(buf, i + 2);
      assert i + 3 < |buf| ==> !CodeEndsAt(buf, i + 3);
      SliceToEnd(buf, start, i + 1);
    }
  }

  /** One framed unit: `pad` extra zero bytes, 00 00 01, the unit. One extra zero makes the
      4-byte start code. */
  datatype Framed = Framed(pad: nat, nal: seq<byte>)

  function Frame(units: seq<Framed>, tail: nat): (buf: seq<byte>)
  {
    if units == [] then Zeros(tail)
    else Zeros(units[0].pad) + [0, 0, 1] + units[0].nal + Frame(units[1..], tail)
  }

  function Nals(units: seq<Framed>): (r: seq<seq<byte>>)
    ensures |r| == |units| && forall k | 0 <= k < |units| :: r[k] == units[k].nal
  {
    seq(|units|, k requires 0 <= k < |units| => units[k].nal)
  }

  /** The zeros a unit keeps: those before a 4-byte code's own, or all that end the buffer. */
  function LeftAfter(units: seq<Framed>, tail: nat): (n: nat)
    requires units != []
  {
    if |units| == 1 then tail else if units[1].pad == 0 then 0 else units[1].pad - 1
  }

  /** The slices of a framed list: each unit with the padding its successor did not need. */
  function FramedSlices(units: seq<Framed>, tail: nat): (r: seq<seq<byte>>)
  {
    if units == [] then []
    else [units[0].nal + Zeros(LeftAfter(units, tail))] + FramedSlices(units[1..], tail)
  }

  /** No unit holds 00 00 01, and one before a bare 3-byte start code does not end in zero. */
  ghost predicate Separable(units: seq<Framed>) {
    forall k | 0 <= k < |units| ::
      NoCode(units[k].nal) &&
      (k + 1 < |units| && units[k + 1].pad == 0 && units[k].nal != [] ==> units[k].nal[|units[k].nal| - 1] != 0)
  }

  /** At `at`, `nal` and then `zeros` zero bytes. */
  ghost predicate LaidOut(buf: seq<byte>, at: nat, nal: seq<byte>, zeros: nat) {
    && at + |nal| + zeros <= |buf|
    && (forall k | 0 <= k < |nal| :: buf[at + k] == nal[k])
    && (forall k | at + |nal| <= k < at + |nal| + zeros :: buf[k] == 0)
  }

  lemma NoCodeBefore(buf: seq<byte>, at: nat, nal: seq<byte>, zeros: nat, p: nat)
    requires LaidOut(buf, at, nal, zeros) && NoCode(nal)
    requires at + 2 <= p < at + |nal| + zeros
    ensures !CodeEndsAt(buf, p)
  {
    if p < at + |nal| {
      var k := p - at;
      assert !CodeEndsAt(nal, k);
      assert buf[at + k] == nal[k] && buf[at + (k - 1)] == nal[k - 1] && buf[at + (k - 2)] == nal[k - 2];
    }
  }

  /** One unit of a framed list, up to the start code of the next. */
  lemma SliceFramed(buf: seq<byte>, at: nat, nal: seq<byte>, pad: nat)
    requires LaidOut(buf, at, nal, pad + 2) && NoCode(nal)
    requires at + |nal| + pad + 2 < |buf| && buf[at + |nal| + pad + 2] == 1
    requires pad == 0 && nal != [] ==> nal[|nal| - 1] != 0
    ensures SlicesFrom(buf, at, at)
         == [nal + Zeros(if pad == 0 then 0 else pad - 1)]
          + SlicesFrom(buf, at + |nal| + pad + 3, at + |nal| + pad + 3)
  {
    var q := at + |nal| + pad + 2;
    forall p | at + 2 <= p < q ensures !CodeEndsAt(buf, p) { NoCodeBefore(buf, at, nal, pad + 2, p); }
    SliceToCode(buf, at, at, q);
    var e := UnitEnd(buf, at, q);
    if pad == 0 && nal != [] { assert buf[at + (|nal| - 1)] == nal[|nal| - 1]; }
    assert e == at + |nal| + if pad == 0 then 0 else pad - 1;
    assert buf[at..e] == nal + Zeros(if pad == 0 then 0 else pad - 1);
  }

  /** The last unit of a framed list. */
  lemma SliceLast(buf: seq<byte>, at: nat, nal: seq<byte>, tail: nat)
    requires LaidOut(buf, at, nal, tail) && NoCode(nal) && |buf| == at + |nal| + tail
    ensures SlicesFrom(buf, at, at) == [nal + Zeros(tail)]
  {
    forall p | at + 2 <= p < |buf| ensures !CodeEndsAt(buf, p) { NoCodeBefore(buf, at, nal, tail, p); }
    SliceToEnd(buf, at, at);
    assert buf[at..] == nal + Zeros(tail);
  }

  /** One unit scanned, and where the next one starts. */
  lemma FramedOne(buf: seq<byte>, at: nat, units: seq<Framed>, tail: nat)
    requires |units| > 1 && Separable(units)
    requires at <= |buf| && buf[at..] == units[0].nal + Frame(units[1..], tail)
    ensures var q := at + |units[0].nal| + units[1].pad + 3;
            && q <= |buf| && buf[q..] == units[1].nal + Frame(units[1..][1..], tail)
            && SlicesFrom(buf, at, at) == [units[0].nal + Zeros(LeftAfter(units, tail))] + SlicesFrom(buf, q, q)
  {
    hide SlicesFrom;
    hide StartCodeAt;
    hide Frame;
    assert NoCode(units[0].nal) && units[1..][0] == units[1];
    FramedLayout(buf, at, units[0].nal, units[1..], tail);
    SliceFramed(buf, at, units[0].nal, units[1].pad);
  }

  lemma FramedEnd(buf: seq<byte>, at: nat, units: seq<Framed>, tail: nat)
    requires |units| == 1 && Separable(units) && at <= |buf| && buf[at..] == units[0].nal + Frame(units[1..], tail)
    ensures SlicesFrom(buf, at, at) == [units[0].nal + Zeros(tail)]
  {
    assert NoCode(units[0].nal);
    FramedLayout(buf, at, units[0].nal, units[1..], tail);
    SliceLast(buf, at, units[0].nal, tail);
  }

  /** The scan of a framed list: `at` is where its first unit begins. */
  lemma {:induction false} FramedScan(buf: seq<byte>, at: nat, units: seq<Framed>, tail: nat)
    requires units != [] && Separable(units)
    requires at <= |buf| && buf[at..] == units[0].nal + Frame(units[1..], tail)
    ensures SlicesFrom(buf, at, at) == FramedSlices(units, tail)
    decreases |units|
  {
    hide SlicesFrom, StartCodeAt, Frame;
    if |units| == 1 {
      FramedEnd(buf, at, units, tail);
    } else {
      FramedOne(buf, at, units, tail);
      SeparableRest(units);
      FramedScan(buf, at + |units[0].nal| + units[1].pad + 3, units[1..], tail);
    }
  }

  lemma FramedLayout(buf: seq<byte>, at: nat, nal: seq<byte>, rest: seq<Framed>, tail: nat)
    requires at <= |buf| && buf[at..] == nal + Frame(rest, tail)
    ensures rest == [] ==> LaidOut(buf, at, nal, tail) && |buf| == at + |nal| + tail
    ensures rest != [] ==>
              var q := at + |nal| + rest[0].pad + 2;
              && LaidOut(buf, at, nal, rest[0].pad + 2) && q < |buf| && buf[q] == 1
              && buf[q + 1..] == rest[0].nal + Frame(rest[1..], tail)
  {
    var follow := Frame(rest, tail);
    assert forall k | 0 <= k < |nal| :: buf[at + k] == buf[at..][k];
    assert forall k | 0 <= k < |follow| :: buf[at + |nal| + k] == buf[at..][|nal| + k] == follow[k];
    if rest == [] {
      forall k | at + |nal| <= k < at + |nal| + tail ensures buf[k] == 0 {
        assert follow[k - at - |nal|] == 0;
      }
    } else {
      var pad := rest[0].pad;
      var more := rest[0].nal + Frame(rest[1..], tail);
      assert follow == Zeros(pad) + [0, 0, 1] + more;
      forall k | at + |nal| <= k < at + |nal| + pad + 2 ensures buf[k] == 0 {
        assert follow[k - at - |nal|] == 0;
      }
      assert follow[pad + 2] == 1;
      assert follow[pad + 3..] == more;
      assert buf[at..][|nal| + pad + 3..] == follow[pad + 3..];
      assert buf[at + |nal| + pad + 3..] == buf[at..][|nal| + pad + 3..];
    }
  }

  lemma SeparableRest(units: seq<Framed>)
    requires |units| > 1 && Separable(units)
    ensures Separable(units[1..])
  {
    forall k | 0 <= k < |units| - 1
      ensures NoCode(units[1..][k].nal)
      ensures k + 1 < |units| - 1 && units[1..][k + 1].pad == 0 && units[1..][k].nal != [] ==>
                units[1..][k].nal[|units[1..][k].nal| - 1] != 0
    {
      assert units[1..][k] == units[k + 1];
      if k + 1 < |units| - 1 { assert units[1..][k + 1] == units[k + 2]; }
    }
  }

  /** Zero bytes and the first start code before the first unit. */
  lemma {:induction false} SkipToFirst(buf: seq<byte>, i: nat, q: nat)
    requires CodeEndsAt(buf, q) && (forall k | 0 <= k < q :: buf[k] == 0)
    requires i + 2 <= q && (q >= 3 ==> i + 3 <= q)
    ensures SlicesAfter(buf, i) == SlicesFrom(buf, q + 1, q + 1)
    decreases q - i
  {
    if i + 3 < q { SkipToFirst(buf, i + 1, q); }
  }

  lemma FirstUnit(units: seq<Framed>, tail: nat)
    requires units != []
    ensures var buf, q := Frame(units, tail), units[0].pad + 2;
            && CodeEndsAt(buf, q) && (forall k | 0 <= k < q :: buf[k] == 0)
            && buf[q + 1..] == units[0].nal + Frame(units[1..], tail)
  {
    var buf, pad := Frame(units, tail), units[0].pad;
    var more := units[0].nal + Frame(units[1..], tail);
    assert buf == Zeros(pad) + [0, 0, 1] + more;
  }

  /** What the scan makes of every framed list of separable units. */
  lemma FramedSlicesExact(units: seq<Framed>, tail: nat)
    requires Separable(units)
    ensures Slices(Frame(units, tail)) == FramedSlices(units, tail)
  {
    var buf := Frame(units, tail);
    if units == [] {
      ZerosHaveNoCode(tail, 0);
    } else {
      FirstUnit(units, tail);
      SkipToFirst(buf, 0, units[0].pad + 2);
      FramedScan(buf, units[0].pad + 3, units, tail);
    }
  }

  lemma {:induction false} ZerosHaveNoCode(n: nat, i: nat)
    requires i <= n
    ensures SlicesAfter(Zeros(n), i) == []
    decreases n - i
  {
    if i < n { ZerosHaveNoCode(n, i + 1); }
  }

  lemma {:induction false} TrimmedPadded(nal: seq<byte>, zeros: nat)
    requires nal == [] || nal[|nal| - 1] != 0
    ensures Trimmed(nal + Zeros(zeros)) == nal
  {
    var s := nal + Zeros(zeros);
    if zeros > 0 {
      assert s[..|s| - 1] == nal + Zeros(zeros - 1);
      TrimmedPadded(nal, zeros - 1);
    } else {
      assert s == nal;
    }
  }

  ghost predicate AllClean(nals: seq<seq<byte>>) {
    forall k | 0 <= k < |nals| :: Clean(nals[k])
  }

  lemma CleanTail(units: seq<Framed>)
    requires AllClean(Nals(units)) && units != []
    ensures Clean(units[0].nal) && AllClean(Nals(units[1..])) && Nals(units) == [units[0].nal] + Nals(units[1..])
  {
    assert Clean(Nals(units)[0]);
    forall k | 0 <= k < |units| - 1 ensures Clean(Nals(units[1..])[k]) {
      assert Nals(units[1..])[k] == Nals(units)[k + 1];
    }
  }

  lemma {:induction false} TrimFramedSlices(units: seq<Framed>, tail: nat)
    requires AllClean(Nals(units))
    ensures NonEmpty(TrimEach(FramedSlices(units, tail))) == Nals(units)
  {
    if units != [] {
      CleanTail(units);
      var left := LeftAfter(units, tail);
      TrimmedPadded(units[0].nal, left);
      TrimFramedSlices(units[1..], tail);
      TrimEachCons(units[0].nal + Zeros(left), FramedSlices(units[1..], tail));
      NonEmptyCons(units[0].nal, TrimEach(FramedSlices(units[1..], tail)));
    }
  }

  lemma NonEmptyCons(u: seq<byte>, rest: seq<seq<byte>>)
    requires u != []
    ensures NonEmpty([u] + rest) == [u] + NonEmpty(rest)
  {
    assert ([u] + rest)[1..] == rest;
  }

  /** Every slice of a scan is free of start codes. */
  lemma {:induction false} SlicesHaveNoCode(buf: seq<byte>, start: nat, i: nat, k: nat)
    requires start <= i <= |buf| && k < |SlicesFrom(buf, start, i)|
    requires forall p | start <= p < i :: StartCodeAt(buf, p) != 3
    ensures NoCode(SlicesFrom(buf, start, i)[k])
    decreases |buf| - i
  {
    if i == |buf| {
      PrefixHasNoCode(buf, start, i);
      assert buf[start..i] == buf[start..];
    } else {
      var sc := StartCodeAt(buf, i);
      if sc == 0 {
        SlicesHaveNoCode(buf, start, i + 1, k);
      } else if k == 0 {
        PrefixHasNoCode(buf, start, i);
      } else {
        SlicesHaveNoCode(buf, i + sc, i + sc, k - 1);
      }
    }
  }

  lemma PrefixHasNoCode(buf: seq<byte>, start: nat, end: nat)
    requires start <= end <= |buf|
    requires forall p | start <= p < end :: StartCodeAt(buf, p) != 3
    ensures NoCode(buf[start..end])
  {
    forall q | 0 <= q < end - start ensures !CodeEndsAt(buf[start..end], q) {
      if q >= 2 { assert StartCodeAt(buf, start + q - 2) != 3; }
    }
  }

  lemma {:induction false} SlicesAfterHaveNoCode(buf: seq<byte>, i: nat, k: nat)
    requires i <= |buf| && k < |SlicesAfter(buf, i)|
    ensures NoCode(SlicesAfter(buf, i)[k])
    decreases |buf| - i
  {
    var sc := StartCodeAt(buf, i);
    if sc == 0 {
      SlicesAfterHaveNoCode(buf, i + 1, k);
    } else {
      SlicesHaveNoCode(buf, i + sc, i + sc, k);
    }
  }

  lemma {:induction false} NonEmptyTrimmedClean(slices: seq<seq<byte>>)
    requires forall k | 0 <= k < |slices| :: NoCode(slices[k])
    ensures AllClean(NonEmpty(TrimEach(slices)))
  {
    if slices != [] {
      forall k | 0 <= k < |slices| - 1 ensures NoCode(slices[1..][k]) { assert slices[1..][k] == slices[k + 1]; }
      NonEmptyTrimmedClean(slices[1..]);
      var t := Trimmed(slices[0]);
      forall q | 0 <= q < |t| ensures !CodeEndsAt(t, q) { assert !CodeEndsAt(slices[0], q); }
    }
  }

  /** Whatever the buffer, the player's reading returns clean units only. */
  lemma AnnexBUnitsClean(buf: seq<byte>)
    ensures AllClean(AnnexBUnits(buf))
  {
    forall k | 0 <= k < |Slices(buf)| ensures NoCode(Slices(buf)[k]) { SlicesAfterHaveNoCode(buf, 0, k); }
    NonEmptyTrimmedClean(Slices(buf));
  }

  /** Framing and reading back: the units return exactly, with any mix of 3- and 4-byte
      start codes and any zero padding, if and only if every unit is clean. */
  lemma AnnexBRoundTrip(units: seq<Framed>, tail: nat)
    ensures AnnexBUnits(Frame(units, tail)) == Nals(units) <==> AllClean(Nals(units))
  {
    if AllClean(Nals(units)) {
      forall k | 0 <= k < |units| ensures Clean(units[k].nal) { assert Clean(Nals(units)[k]); }
      FramedSlicesExact(units, tail);
      TrimFramedSlices(units, tail);
    }
    AnnexBUnitsClean(Frame(units, tail));
  }
}
