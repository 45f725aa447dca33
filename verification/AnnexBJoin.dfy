/** The Annex B scan of bytes written behind a 4-byte start code: it starts afresh there, and a
    start code inside a unit costs it bytes. */
module AnnexBJoin {
  import opened Bytes
  import opened AnnexB

  const CODE: seq<byte> := [0, 0, 0, 1]

  /** A 4-byte start code behind `x` makes no start code that begins inside `x`. */
  lemma StartCodeJoin(x: seq<byte>, rest: seq<byte>, i: nat)
    requires i < |x|
    ensures StartCodeAt(x + CODE + rest, i) == StartCodeAt(x, i)
  {
    var buf := x + CODE + rest;
    assert buf[i] == x[i];
    assert i + 1 < |x| ==> buf[i + 1] == x[i + 1];
    assert i + 2 < |x| ==> buf[i + 2] == x[i + 2];
    assert i + 3 < |x| ==> buf[i + 3] == x[i + 3];
    assert i + 3 == |x| ==> buf[i + 3] == 0;
    assert i + 2 == |x| ==> buf[i + 2] == 0 && buf[i + 3] == 0;
    assert i + 1 == |x| ==> buf[i + 1] == 0 && buf[i + 2] == 0 && buf[i + 3] == 0;
  }

  lemma CodeThere(x: seq<byte>, rest: seq<byte>)
    ensures StartCodeAt(x + CODE + rest, |x|) == 4
  {
    var buf := x + CODE + rest;
    assert buf[|x|] == 0 && buf[|x| + 1] == 0 && buf[|x| + 2] == 0 && buf[|x| + 3] == 1;
  }

  lemma Assoc(a: seq<byte>, b: seq<seq<byte>>, c: seq<seq<byte>>)
    ensures [a] + (b + c) == [a] + b + c
  {
  }

  lemma CutOfJoin(x: seq<byte>, rest: seq<byte>, start: nat, i: nat)
    requires start <= i <= |x|
    ensures (x + CODE + rest)[start..i] == x[start..i] && x[start..|x|] == x[start..]
  {
  }

  /** The scan of `x`, a 4-byte start code and more is the scan of `x` and then of the rest. */
  lemma {:induction false} SlicesJoin(x: seq<byte>, rest: seq<byte>, start: nat, i: nat)
    requires start <= i <= |x|
    ensures SlicesFrom(x + CODE + rest, start, i)
         == SlicesFrom(x, start, i) + SlicesFrom(x + CODE + rest, |x| + 4, |x| + 4)
    decreases |x| - i
  {
    hide StartCodeAt;
    var buf := x + CODE + rest;
    CutOfJoin(x, rest, start, i);
    if i == |x| {
      CodeThere(x, rest);
    } else {
      StartCodeJoin(x, rest, i);
      var sc := StartCodeAt(x, i);
      if sc == 0 {
        SlicesJoin(x, rest, start, i + 1);
      } else {
        SlicesJoin(x, rest, i + sc, i + sc);
        Assoc(x[start..i], SlicesFrom(x, i + sc, i + sc), SlicesFrom(buf, |x| + 4, |x| + 4));
      }
    }
  }

  lemma StartCodeShift(a: seq<byte>, b: seq<byte>, i: nat)
    requires i < |b|
    ensures StartCodeAt(a + b, |a| + i) == StartCodeAt(b, i)
  {
    var buf := a + b;
    assert buf[|a| + i] == b[i];
    assert i + 1 < |b| ==> buf[|a| + i + 1] == b[i + 1];
    assert i + 2 < |b| ==> buf[|a| + i + 2] == b[i + 2];
    assert i + 3 < |b| ==> buf[|a| + i + 3] == b[i + 3];
  }

  /** What lies before the scan does not matter. */
  lemma {:induction false} SlicesShift(a: seq<byte>, b: seq<byte>, start: nat, i: nat)
    requires start <= i <= |b|
    ensures SlicesFrom(a + b, |a| + start, |a| + i) == SlicesFrom(b, start, i)
    decreases |b| - i
  {
    hide StartCodeAt;
    CutBehind(a, b, start, i);
    if i < |b| {
      StartCodeShift(a, b, i);
      var sc := StartCodeAt(b, i);
      if sc == 0 {
        SlicesShift(a, b, start, i + 1);
      } else {
        SlicesShift(a, b, i + sc, i + sc);
      }
    }
  }

  lemma CutBehind(a: seq<byte>, b: seq<byte>, start: nat, i: nat)
    requires start <= i <= |b|
    ensures (a + b)[|a| + start..] == b[start..] && (a + b)[|a| + start..|a| + i] == b[start..i]
  {
  }

  function TotalLen(slices: seq<seq<byte>>): nat
  {
    if slices == [] then 0 else |slices[0]| + TotalLen(slices[1..])
  }

  lemma CodeSize(x: seq<byte>, i: nat)
    ensures StartCodeAt(x, i) == 0 || StartCodeAt(x, i) >= 3
  {
  }

  /** The scan keeps a unit whole, or loses at least the three bytes of a start code. */
  lemma {:induction false} TotalSlices(x: seq<byte>, start: nat, i: nat)
    requires start <= i <= |x|
    ensures var r := SlicesFrom(x, start, i); r == [x[start..]] || TotalLen(r) + 3 <= |x| - start
    ensures SlicesFrom(x, start, i) != [] && TotalLen(SlicesFrom(x, start, i)) <= |x| - start
    decreases |x| - i
  {
    hide StartCodeAt;
    if i == |x| {
      assert [x[start..]][1..] == [];
    } else {
      var sc := StartCodeAt(x, i);
      if sc == 0 {
        TotalSlices(x, start, i + 1);
      } else {
        TotalSlices(x, i + sc, i + sc);
        CodeSize(x, i);
        var rest := SlicesFrom(x, i + sc, i + sc);
        assert ([x[start..i]] + rest)[1..] == rest;
      }
    }
  }

  /** A unit with a start code inside is not read back whole. */
  lemma CodeCosts(x: seq<byte>)
    requires !NoCode(x)
    ensures TotalLen(SlicesFrom(x, 0, 0)) < |x|
  {
    TotalSlices(x, 0, 0);
    assert x[0..] == x;
    SlicesHaveNoCode(x, 0, 0, 0);
  }

  /** A leading 4-byte start code only starts the scan. */
  lemma SlicesBehindCode(x: seq<byte>)
    ensures Slices(CODE + x) == SlicesFrom(x, 0, 0)
  {
    CodeThere([], x);
    assert [] + CODE + x == CODE + x;
    SlicesShift(CODE, x, 0, 0);
  }

  /** Two such stretches one after the other. */
  lemma SlicesBehindTwo(x: seq<byte>, y: seq<byte>)
    ensures Slices(CODE + x + (CODE + y)) == SlicesFrom(x, 0, 0) + Slices(CODE + y)
  {
    var all := x + CODE + y;
    assert CODE + x + (CODE + y) == CODE + all;
    SlicesBehindCode(all);
    SlicesBehindCode(y);
    SlicesJoin(x, y, 0, 0);
    assert all == (x + CODE) + y;
    SlicesShift(x + CODE, y, 0, 0);
  }
}
