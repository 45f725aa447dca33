/** NAL units behind 4-byte big-endian lengths: the player's exact walk
    (`lengthPrefixedNalUnits`) and the serialisation it inverts. */
module LengthPrefixed {
  import opened Bytes

  /** A unit the walk accepts: non-empty, its length fits, its forbidden bit is clear. */
  predicate Walkable(u: seq<byte>) {
    0 < |u| < U32_MOD && u[0] < 128
  }

  function Serialized(units: seq<seq<byte>>): (buf: seq<byte>)
  {
    if units == [] then [] else BigEndian(|units[0]|, 4) + units[0] + Serialized(units[1..])
  }

  /** The walk from the head of `buf` to its end. */
  function Walk(buf: seq<byte>): (r: Option<seq<seq<byte>>>)
  {
    if buf == [] then Some([])
    else if |buf| < 4 then None
    else
      var len := FromBigEndian(buf[..4]);
      if len == 0 || 4 + len > |buf| || buf[4] >= 128 then None
      else
        match Walk(buf[4 + len..])
        case None => None
        case Some(rest) => Some([buf[4..4 + len]] + rest)
  }

  /** The units of an exact length-prefixed buffer; an empty buffer is none. */
  function LengthPrefixedUnits(buf: seq<byte>): (r: Option<seq<seq<byte>>>)
  {
    if buf == [] then None else Walk(buf)
  }

  /** The four bytes of a length, shifted together. */
  function Word(a: int, b: int, c: int, d: int): int {
    a * 0x100_0000 + b * 0x1_0000 + c * 0x100 + d
  }

  lemma FourBytes(s: seq<byte>)
    requires |s| == 4
    ensures FromBigEndian(s) == Word(s[0], s[1], s[2], s[3])
  {
    assert s[..3][..2] == s[..2] && s[..2][..1] == s[..1] && s[..1][..0] == [];
    assert FromBigEndian(s[..1]) == s[0];
    assert FromBigEndian(s[..2]) == Word(0, 0, s[0], s[1]);
    assert FromBigEndian(s[..3]) == Word(0, s[0], s[1], s[2]);
  }

  /** `Walk` of the rest, after the units already read. */
  ghost predicate Walked(buf: seq<byte>, i: nat, out: seq<seq<byte>>) {
    i <= |buf| && Walk(buf) == match Walk(buf[i..]) case None => None case Some(rest) => Some(out + rest)
  }

  lemma WalkedStart(buf: seq<byte>)
    ensures Walked(buf, 0, [])
  {
    assert buf[0..] == buf;
    if Walk(buf).Some? { assert [] + Walk(buf).value == Walk(buf).value; }
  }

  /** One step of the walk, at `i`. */
  lemma WalkAt(buf: seq<byte>, i: nat, len: nat)
    requires i + 4 <= |buf| && len == FromBigEndian(buf[i..i + 4])
    ensures Walk(buf[i..]) ==
            if len == 0 || i + 4 + len > |buf| || buf[i + 4] >= 128 then None
            else match Walk(buf[i + 4 + len..])
                 case None => None
                 case Some(rest) => Some([buf[i + 4..i + 4 + len]] + rest)
  {
    var s := buf[i..];
    assert s[..4] == buf[i..i + 4];
    if !(len == 0 || i + 4 + len > |buf| || buf[i + 4] >= 128) {
      assert s[4 + len..] == buf[i + 4 + len..];
      assert s[4..4 + len] == buf[i + 4..i + 4 + len];
    }
  }

  lemma WalkStep(buf: seq<byte>, i: nat, len: nat, out: seq<seq<byte>>)
    requires Walked(buf, i, out) && i + 4 <= |buf| && len == FromBigEndian(buf[i..i + 4])
    ensures len == 0 || i + 4 + len > |buf| || buf[i + 4] >= 128 ==> Walk(buf) == None
    ensures !(len == 0 || i + 4 + len > |buf| || buf[i + 4] >= 128) ==>
              Walked(buf, i + 4 + len, out + [buf[i + 4..i + 4 + len]])
  {
    WalkAt(buf, i, len);
    if !(len == 0 || i + 4 + len > |buf| || buf[i + 4] >= 128) {
      match Walk(buf[i + 4 + len..])
      case None =>
      case Some(rest) =>
        Append(out, buf[i + 4..i + 4 + len], rest);
    }
  }

  lemma Append(out: seq<seq<byte>>, u: seq<byte>, rest: seq<seq<byte>>)
    ensures out + ([u] + rest) == out + [u] + rest
  {
  }

  lemma WalkedShort(buf: seq<byte>, i: nat, out: seq<seq<byte>>)
    requires Walked(buf, i, out) && i < |buf| < i + 4
    ensures Walk(buf) == None
  {
  }

  lemma WalkedEnd(buf: seq<byte>, out: seq<seq<byte>>)
    requires Walked(buf, |buf|, out)
    ensures Walk(buf) == Some(out)
  {
    assert buf[|buf|..] == [] && out + [] == out;
  }

  /** `lengthPrefixedNalUnits` */
  method LengthPrefixedNalUnits(buf: seq<byte>) returns (r: Option<seq<seq<byte>>>)
    ensures r == LengthPrefixedUnits(buf)
  {
    hide FromBigEndian, Walk, Walked;
    var out: seq<seq<byte>> := [];
    var i := 0;
    WalkedStart(buf);
    while i < |buf|
      invariant 0 <= i <= |buf| && Walked(buf, i, out)
      invariant i > 0 <==> out != []
    {
      if i + 4 > |buf| {
        WalkedShort(buf, i, out);
        return None;
      }
      var len := Word(buf[i], buf[i + 1], buf[i + 2], buf[i + 3]);
      FourBytes(buf[i..i + 4]);
      WalkStep(buf, i, len, out);
      i := i + 4;
      if len == 0 || i + len > |buf| || buf[i] >= 128 { return None; }
      out := out + [buf[i..i + len]];
      i := i + len;
    }
    WalkedEnd(buf, out);
    r := if |out| > 0 then Some(out) else None;
  }

  lemma LongEnough(buf: seq<byte>)
    requires buf != [] && Walk(buf).Some?
    ensures |buf| >= 4
  {
  }

  /** The length field, read and written again. */
  lemma LengthBack(s: seq<byte>, len: nat)
    requires |s| == 4 && len == FromBigEndian(s)
    ensures len < U32_MOD && BigEndian(len, 4) == s
  {
    LengthField(s);
  }

  predicate AllWalkable(units: seq<seq<byte>>)
  {
    forall u | u in units :: Walkable(u)
  }

  lemma {:induction false} WalkSoundFrom(buf: seq<byte>, i: nat)
    requires i <= |buf| && Walk(buf[i..]).Some?
    ensures AllWalkable(Walk(buf[i..]).value) && Serialized(Walk(buf[i..]).value) == buf[i..]
    decreases |buf| - i
  {
    if i < |buf| {
      hide Walk;
      hide Serialized;
      hide FromBigEndian;
      LongEnough(buf[i..]);
      var len := FromBigEndian(buf[i..i + 4]);
      WalkAt(buf, i, len);
      LengthBack(buf[i..i + 4], len);
      WalkSoundFrom(buf, i + 4 + len);
      Rejoined(buf, i, len, Walk(buf[i + 4 + len..]).value);
      WalkableCons(buf[i + 4..i + 4 + len], Walk(buf[i + 4 + len..]).value);
    }
  }

  lemma WalkableCons(u: seq<byte>, rest: seq<seq<byte>>)
    requires Walkable(u) && AllWalkable(rest)
    ensures AllWalkable([u] + rest)
  {
  }

  lemma Rejoined(buf: seq<byte>, i: nat, len: nat, rest: seq<seq<byte>>)
    requires i + 4 + len <= |buf| && BigEndian(len, 4) == buf[i..i + 4] && Serialized(rest) == buf[i + 4 + len..]
    ensures Serialized([buf[i + 4..i + 4 + len]] + rest) == buf[i..]
  {
    SerializedCons(buf[i + 4..i + 4 + len], rest);
    assert buf[i..] == buf[i..i + 4] + buf[i + 4..i + 4 + len] + buf[i + 4 + len..];
  }

  lemma WalkSound(buf: seq<byte>)
    requires Walk(buf).Some?
    ensures forall u | u in Walk(buf).value :: Walkable(u)
    ensures Serialized(Walk(buf).value) == buf
  {
    assert buf[0..] == buf;
    WalkSoundFrom(buf, 0);
  }

  lemma LengthField(s: seq<byte>)
    requires |s| == 4
    ensures FromBigEndian(s) < U32_MOD && BigEndian(FromBigEndian(s), 4) == s
  {
    FromBigEndianRoundTrip(s);
    Pow256Words();
  }

  lemma SerializedCons(u: seq<byte>, rest: seq<seq<byte>>)
    ensures Serialized([u] + rest) == BigEndian(|u|, 4) + u + Serialized(rest)
  {
    assert ([u] + rest)[1..] == rest;
  }

  lemma {:induction false} WalkComplete(units: seq<seq<byte>>)
    requires forall u | u in units :: Walkable(u)
    ensures Walk(Serialized(units)) == Some(units)
  {
    if units != [] {
      var u, buf := units[0], Serialized(units);
      assert Walkable(u);
      Pow256Words();
      BigEndianRoundTrip(|u|, 4);
      assert buf[..4] == BigEndian(|u|, 4);
      assert buf[4..4 + |u|] == u;
      assert buf[4 + |u|..] == Serialized(units[1..]);
      WalkComplete(units[1..]);
      assert units == [u] + units[1..];
    }
  }

  /** The walk is exact: it answers with `units` if and only if they are a non-empty list
      of walkable units that serialises to this very buffer. */
  lemma WalkExact(buf: seq<byte>, units: seq<seq<byte>>)
    ensures LengthPrefixedUnits(buf) == Some(units)
       <==> units != [] && (forall u | u in units :: Walkable(u)) && Serialized(units) == buf
  {
    if LengthPrefixedUnits(buf) == Some(units) { WalkSound(buf); }
    if units != [] && (forall u | u in units :: Walkable(u)) && Serialized(units) == buf {
      WalkComplete(units);
      assert |buf| >= 4;
    }
  }

  lemma WalkRefusesZeros(buf: seq<byte>)
    requires |buf| >= 4 && buf[0] == 0 && buf[1] == 0 && buf[2] == 0 && buf[3] == 0
    ensures Walk(buf) == None
  {
    FourBytes(buf[..4]);
  }

  lemma WalkOne(buf: seq<byte>)
    requires |buf| > 4 && FromBigEndian(buf[..4]) == |buf| - 4 && buf[4] < 128
    ensures Walk(buf) == Some([buf[4..]])
  {
    assert buf[4..|buf|] == buf[4..];
    assert Walk(buf[|buf|..]) == Some([]);
    assert [buf[4..]] + [] == [buf[4..]];
  }
}
