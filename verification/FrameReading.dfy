/** Start codes and length prefixes: which frames read the same either way. */
module FrameReading {
  import opened Bytes
  import AnnexB
  import LengthPrefixed

  /** Behind 4-byte start codes units of one byte are also behind their lengths. */
  predicate Twin(units: seq<AnnexB.Framed>, tail: nat) {
    tail == 0 && forall k | 0 <= k < |units| :: units[k].pad == 1 && |units[k].nal| == 1
  }

  lemma NalsCons(units: seq<AnnexB.Framed>)
    requires units != []
    ensures AnnexB.Nals(units) == [units[0].nal] + AnnexB.Nals(units[1..])
  {
  }

  lemma SerializedFirst(units: seq<AnnexB.Framed>)
    requires units != []
    ensures LengthPrefixed.Serialized(AnnexB.Nals(units))
         == BigEndian(|units[0].nal|, 4) + units[0].nal + LengthPrefixed.Serialized(AnnexB.Nals(units[1..]))
  {
    NalsCons(units);
    LengthPrefixed.SerializedCons(units[0].nal, AnnexB.Nals(units[1..]));
  }

  /** What a length field says of the length written in it. */
  lemma LengthOf(n: nat)
    requires 0 < n < U32_MOD
    ensures BigEndian(n, 4) != [0, 0, 0, 0] && (BigEndian(n, 4) == [0, 0, 0, 1] <==> n == 1)
  {
    hide FromBigEndian, BigEndian;
    Pow256Words();
    BigEndianRoundTrip(n, 4);
    var s := BigEndian(n, 4);
    LengthPrefixed.FourBytes(s);
    assert s == [s[0], s[1], s[2], s[3]];
  }

  /** A bare 3-byte start code never looks like the length of its own unit: the last byte of
      the unit would be the first of what follows it. */
  lemma BareDiffers(nal: seq<byte>, len: seq<byte>, more: seq<byte>, rest: seq<byte>)
    requires nal != [] && nal[|nal| - 1] != 0 && |len| == 4 && (rest == [] || rest[0] == 0)
    ensures len + nal + more != [0, 0, 1] + nal + rest
  {
    var a, b := len + nal + more, [0, 0, 1] + nal + rest;
    assert a[3 + |nal|] == nal[|nal| - 1];
    if rest != [] { assert b[3 + |nal|] == rest[0]; }
  }

  lemma FrameOpens(units: seq<AnnexB.Framed>, tail: nat)
    ensures var f := AnnexB.Frame(units, tail); f == [] || f[0] == 0
  {
  }

  /** One unit of both readings. */
  lemma SameFirst(units: seq<AnnexB.Framed>, tail: nat)
    requires units != [] && units[0].nal != [] && units[0].nal[|units[0].nal| - 1] != 0 && |units[0].nal| < U32_MOD
    ensures LengthPrefixed.Serialized(AnnexB.Nals(units)) == AnnexB.Frame(units, tail)
       <==> && units[0].pad == 1 && |units[0].nal| == 1
            && LengthPrefixed.Serialized(AnnexB.Nals(units[1..])) == AnnexB.Frame(units[1..], tail)
  {
    hide LengthPrefixed.Serialized, BigEndian, AnnexB.Nals;
    var nal, pad := units[0].nal, units[0].pad;
    var more, rest := LengthPrefixed.Serialized(AnnexB.Nals(units[1..])), AnnexB.Frame(units[1..], tail);
    SerializedFirst(units);
    LengthOf(|nal|);
    FrameOpens(units[1..], tail);
    SameHead(pad, nal, BigEndian(|nal|, 4), more, rest);
  }

  lemma SameHead(pad: nat, nal: seq<byte>, len: seq<byte>, more: seq<byte>, rest: seq<byte>)
    requires nal != [] && nal[|nal| - 1] != 0 && |len| == 4 && (rest == [] || rest[0] == 0)
    requires len != [0, 0, 0, 0] && (len == [0, 0, 0, 1] <==> |nal| == 1)
    ensures len + nal + more == Zeros(pad) + [0, 0, 1] + nal + rest <==> pad == 1 && |nal| == 1 && more == rest
  {
    var a, b := len + nal + more, Zeros(pad) + [0, 0, 1] + nal + rest;
    assert a[..4] == len;
    if pad == 0 {
      assert b == [0, 0, 1] + nal + rest;
      BareDiffers(nal, len, more, rest);
    } else if pad == 1 {
      assert b == [0, 0, 0, 1] + nal + rest && b[..4] == [0, 0, 0, 1];
      assert a[4 + |nal|..] == more && b[4 + |nal|..] == rest;
    } else {
      assert b[..4] == [0, 0, 0, 0];
    }
  }

  /** Clean units framed and length-prefixed are the same bytes only when each is one byte
      behind a 4-byte start code. */
  lemma {:induction false} SameBytes(units: seq<AnnexB.Framed>, tail: nat)
    requires forall k | 0 <= k < |units| :: AnnexB.Clean(units[k].nal) && |units[k].nal| < U32_MOD
    ensures LengthPrefixed.Serialized(AnnexB.Nals(units)) == AnnexB.Frame(units, tail) <==> Twin(units, tail)
  {
    if units == [] {
      assert AnnexB.Frame(units, tail) == Zeros(tail);
    } else {
      assert AnnexB.Clean(units[0].nal);
      SameFirst(units, tail);
      SameBytes(units[1..], tail);
      TwinCons(units, tail);
    }
  }

  lemma TwinCons(units: seq<AnnexB.Framed>, tail: nat)
    requires units != []
    ensures Twin(units, tail) <==> units[0].pad == 1 && |units[0].nal| == 1 && Twin(units[1..], tail)
  {
    assert forall k | 0 < k < |units| :: units[k] == units[1..][k - 1];
  }
}
