/** Emulation prevention (section 7.4.1 of ITU-T H.264): the writer of the Rust server
    and the reader of the JavaScript player, and why one undoes the other. */
module EmulationPrevention {
  import opened Bytes

  /** The zero run after one more byte. */
  function Run(zeros: nat, b: byte): nat {
    if b == 0 then zeros + 1 else 0
  }

  /** What the writer appends for `s` when `zeros` zero bytes precede it. */
  function EscapedFrom(s: seq<byte>, zeros: nat): (e: seq<byte>)
  {
    if s == [] then []
    else if zeros >= 2 && s[0] <= 3 then [3, s[0]] + EscapedFrom(s[1..], Run(0, s[0]))
    else [s[0]] + EscapedFrom(s[1..], Run(zeros, s[0]))
  }

  /** What the reader keeps of `s` when `zeros` zero bytes precede it. */
  function UnescapedFrom(s: seq<byte>, zeros: nat): (r: seq<byte>)
  {
    if s == [] then []
    else if zeros >= 2 && s[0] == 3 then UnescapedFrom(s[1..], 0)
    else [s[0]] + UnescapedFrom(s[1..], Run(zeros, s[0]))
  }

  function Escaped(s: seq<byte>): seq<byte> { EscapedFrom(s, 0) }

  function Unescaped(s: seq<byte>): seq<byte> { UnescapedFrom(s, 0) }

  /** At the head of `e`, two zero bytes are followed by no 00, 01 or 02, and by 03 only
      when that protects a byte that needs it. */
  predicate HeadOk(e: seq<byte>) {
    |e| >= 3 && e[0] == 0 && e[1] == 0 ==> e[2] > 2 && (e[2] == 3 ==> |e| > 3 && e[3] <= 3)
  }

  /** `HeadOk` at every position. */
  predicate WellEscaped(e: seq<byte>) {
    e == [] || (HeadOk(e) && WellEscaped(e[1..]))
  }

  /** The writer's loop (`append_rbsp_escaped`). */
  method AppendRbspEscaped(out: seq<byte>, rbsp: seq<byte>) returns (r: seq<byte>)
    ensures r == out + Escaped(rbsp)
  {
    r := out;
    var zeros: nat := 0;
    for i := 0 to |rbsp|
      invariant r + EscapedFrom(rbsp[i..], zeros) == out + Escaped(rbsp)
    {
      var b := rbsp[i];
      assert rbsp[i..][1..] == rbsp[i + 1..];
      if zeros >= 2 && b <= 3 {
        r := r + [3];
        zeros := 0;
      }
      r := r + [b];
      zeros := if b == 0 then zeros + 1 else 0;
    }
  }

  /** The reader's loop (`unescape`), filling a buffer as long as its input. */
  method Unescape(src: seq<byte>) returns (r: seq<byte>)
    ensures r == Unescaped(src)
  {
    var out := new byte[|src|](_ => 0);
    var n: nat := 0;
    var zeros: nat := 0;
    for i := 0 to |src|
      invariant n <= i
      invariant out[..n] + UnescapedFrom(src[i..], zeros) == Unescaped(src)
    {
      var b := src[i];
      assert src[i..][1..] == src[i + 1..];
      if zeros >= 2 && b == 3 {
        zeros := 0;
        continue;
      }
      out[n] := b;
      n := n + 1;
      assert out[..n] == out[..n - 1] + [b];
      zeros := if b == 0 then zeros + 1 else 0;
    }
    r := out[..n];
  }

  lemma {:induction false} UnescapeEscapeFrom(s: seq<byte>, zeros: nat)
    ensures UnescapedFrom(EscapedFrom(s, zeros), zeros) == s
  {
    if s != [] {
      var b := s[0];
      var e := EscapedFrom(s, zeros);
      if zeros >= 2 && b <= 3 {
        UnescapeEscapeFrom(s[1..], Run(0, b));
        assert e[1..] == [b] + EscapedFrom(s[1..], Run(0, b));
        assert e[1..][1..] == EscapedFrom(s[1..], Run(0, b));
      } else {
        UnescapeEscapeFrom(s[1..], Run(zeros, b));
        assert e[1..] == EscapedFrom(s[1..], Run(zeros, b));
      }
    }
  }

  /** The reader undoes the writer, on every byte string. */
  lemma UnescapeEscape(s: seq<byte>)
    ensures Unescaped(Escaped(s)) == s
  {
    UnescapeEscapeFrom(s, 0);
  }

  lemma WellEscapedStep(b: byte, rest: seq<byte>)
    ensures WellEscaped([b] + rest) <==> HeadOk([b] + rest) && WellEscaped(rest)
  {
    assert ([b] + rest)[1..] == rest;
  }

  /** `zeros` zero bytes, then `e`. */
  function After(zeros: nat, e: seq<byte>): (s: seq<byte>)
    requires zeros <= 2
  {
    if zeros == 0 then e else if zeros == 1 then [0] + e else [0] + ([0] + e)
  }

  lemma {:induction false} EscapedIsWellEscapedFrom(s: seq<byte>, zeros: nat)
    requires zeros <= 2
    ensures WellEscaped(After(zeros, EscapedFrom(s, zeros)))
  {
    if s == [] {
      WellEscapedStep(0, []);
      WellEscapedStep(0, [0]);
    } else if zeros == 2 && s[0] <= 3 {
      var rest := EscapedFrom(s[1..], Run(0, s[0]));
      EscapedIsWellEscapedFrom(s[1..], Run(0, s[0]));
      AfterByte(s[0], 0, rest);
      assert EscapedFrom(s, zeros) == [3] + ([s[0]] + rest);
      AfterByte(3, 2, [s[0]] + rest);
    } else {
      EscapedIsWellEscapedFrom(s[1..], Run(zeros, s[0]));
      AfterByte(s[0], zeros, EscapedFrom(s[1..], Run(zeros, s[0])));
    }
  }

  /** One more byte after a zero run: well escaped if the rest is, unless the byte is one
      that must not follow two zeros. */
  lemma AfterByte(b: byte, zeros: nat, rest: seq<byte>)
    requires zeros <= 2
    requires zeros == 2 ==> b > 2 && (b == 3 ==> rest != [] && rest[0] <= 3)
    ensures WellEscaped(After(zeros, [b] + rest)) <==> WellEscaped(After(Run(zeros, b), rest))
  {
    var tail := [b] + rest;
    if b == 0 {
      assert After(zeros, tail) == After(zeros + 1, rest);
    } else {
      WellEscapedStep(b, rest);
      WellEscapedStep(0, tail);
      WellEscapedStep(0, [0] + tail);
    }
  }

  /** Escaped bytes are well escaped. */
  lemma EscapedIsWellEscaped(s: seq<byte>)
    ensures WellEscaped(Escaped(s))
  {
    EscapedIsWellEscapedFrom(s, 0);
  }

  /** Well-escaped bytes never contain 00 00 followed by 00, 01 or 02. */
  lemma {:induction false} WellEscapedAt(e: seq<byte>, i: nat)
    requires WellEscaped(e) && i + 2 < |e| && e[i] == 0 && e[i + 1] == 0
    ensures e[i + 2] > 2
  {
    if i > 0 { WellEscapedAt(e[1..], i - 1); }
  }

  lemma {:induction false} EscapeUnescapeFrom(e: seq<byte>, zeros: nat)
    requires zeros <= 2 && WellEscaped(After(zeros, e))
    ensures EscapedFrom(UnescapedFrom(e, zeros), zeros) == e
  {
    if e != [] {
      var b, rest := e[0], e[1..];
      assert e == [b] + rest;
      if zeros == 2 {
        WellEscapedStep(0, [0] + e);
        assert HeadOk([0] + ([0] + e));
      }
      AfterByte(b, zeros, rest);
      if zeros == 2 && b == 3 {
        EscapeUnescapeFrom(rest, 0);
        EscapedHead(rest);
      } else {
        EscapeUnescapeFrom(rest, Run(zeros, b));
      }
    }
  }

  lemma ProtectedHead(u: seq<byte>)
    requires u != [] && u[0] <= 3
    ensures EscapedFrom(u, 2) == [3] + EscapedFrom(u, 0)
  {
    var e := EscapedFrom(u[1..], Run(0, u[0]));
    assert [3, u[0]] + e == [3] + ([u[0]] + e);
  }

  /** After a dropped 03 the writer puts one back in front of a byte of 0 to 3. */
  lemma EscapedHead(rest: seq<byte>)
    requires rest != [] && rest[0] <= 3 && EscapedFrom(UnescapedFrom(rest, 0), 0) == rest
    ensures EscapedFrom(UnescapedFrom(rest, 0), 2) == [3] + rest
  {
    ProtectedHead(UnescapedFrom(rest, 0));
  }

  /** The writer's range, exactly: re-escaping what was read gives the bytes back if and
      only if they were well escaped. */
  lemma EscapeUnescape(e: seq<byte>)
    ensures Escaped(Unescaped(e)) == e <==> WellEscaped(e)
  {
    if WellEscaped(e) {
      EscapeUnescapeFrom(e, 0);
    }
    EscapedIsWellEscaped(Unescaped(e));
  }

  /** The first byte is never escaped. */
  lemma EscapedHeadByte(s: seq<byte>)
    requires s != []
    ensures Escaped(s) != [] && Escaped(s)[0] == s[0]
  {}

  /** Without two zero bytes in a row there is nothing to escape. */
  lemma {:induction false} NothingToEscape(s: seq<byte>, zeros: nat)
    requires zeros <= 1 && (zeros == 1 && s != [] ==> s[0] != 0)
    requires forall i | 0 <= i < |s| - 1 :: s[i] != 0 || s[i + 1] != 0
    ensures EscapedFrom(s, zeros) == s
  {
    if s != [] {
      forall i | 0 <= i < |s| - 2 ensures s[1..][i] != 0 || s[1..][i + 1] != 0 {
        assert s[i + 1] != 0 || s[i + 2] != 0;
      }
      assert |s| > 1 ==> s[0] != 0 || s[1] != 0;
      NothingToEscape(s[1..], Run(zeros, s[0]));
    }
  }
}
