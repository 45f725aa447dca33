/** Which access units `mux_to_hls` re-muxes (`VideoPick`): the first non-AV1 video PID from
    its first keyframe on, that keyframe completed with the parameter sets of the units
    skipped before it. The codecs' id parsers are parameters. */
module VideoPickModel {
  import opened Bytes
  import opened NalUnits
  import opened SetMap

  /** The parameter-set id parsers of the codec library: an id, or None when none parses. */
  datatype IdParsers = IdParsers(
    avcSps: seq<byte> -> Option<byte>, avcPps: seq<byte> -> Option<byte>,
    hevcVps: seq<byte> -> Option<byte>, hevcSps: seq<byte> -> Option<byte>, hevcPps: seq<byte> -> Option<byte>,
    vvcVps: seq<byte> -> Option<byte>, vvcSps: seq<byte> -> Option<byte>, vvcPps: seq<byte> -> Option<byte>)

  function KeyWith(nalType: byte, id: Option<byte>, payload: seq<byte>): SetKey {
    SetKey(nalType, if id.Some? then Id(id.value) else Raw(payload))
  }

  /** `set_key` */
  function SetKeyOf(ids: IdParsers, u: NalUnit): (k: Option<SetKey>)
    ensures k.Some? ==> k.value.nalType == u.nalType
  {
    var p := u.payload;
    match u
    case Avc(t, _, _) =>
      if t == 7 then Some(KeyWith(t, ids.avcSps(p), p))
      else if t == 8 then Some(KeyWith(t, ids.avcPps(p), p))
      else None
    case Hevc(t, _, _, _) =>
      if t == 32 then Some(KeyWith(t, ids.hevcVps(p), p))
      else if t == 33 then Some(KeyWith(t, ids.hevcSps(p), p))
      else if t == 34 then Some(KeyWith(t, ids.hevcPps(p), p))
      else None
    case Vvc(t, _, _, _) =>
      if t == 14 then Some(KeyWith(t, ids.vvcVps(p), p))
      else if t == 15 then Some(KeyWith(t, ids.vvcSps(p), p))
      else if t == 16 then Some(KeyWith(t, ids.vvcPps(p), p))
      else if t == 17 then Some(KeyWith(t, if p == [] then None else Some(p[0]), p))
      else None
  }

  /** `is_delimiter` */
  predicate IsDelimiter(u: NalUnit) {
    match u
    case Avc(t, _, _) => t == 9
    case Hevc(t, _, _, _) => t == 35
    case Vvc(t, _, _, _) => t == 20
  }

  predicate IsIrap(u: NalUnit) {
    match u
    case Avc(t, _, _) => t == 5
    case Hevc(t, _, _, _) => 16 <= t <= 21
    case Vvc(t, _, _, _) => 7 <= t <= 9
  }

  /** One video sample of the demuxer. */
  datatype AccessUnit = AccessUnit(pid: nat, codec: VideoCodec, raw: seq<byte>, rai: bool)

  function Nals(u: AccessUnit): seq<NalUnit> { Split(u.raw, u.codec) }

  /** `starts_decoding` */
  predicate StartsDecoding(u: AccessUnit) { u.rai || exists n :: n in Nals(u) && IsIrap(n) }

  /** `params` with every set of `us` in it, later copies replacing earlier ones. */
  function Remembered(ids: IdParsers, params: seq<Entry>, us: seq<NalUnit>): (r: seq<Entry>)
    decreases |us|
  {
    if us == [] then params
    else
      match SetKeyOf(ids, us[0])
      case None => Remembered(ids, params, us[1..])
      case Some(k) => Remembered(ids, Insert(params, k, AnnexBNal(us[0])), us[1..])
  }

  function OwnKeys(ids: IdParsers, us: seq<NalUnit>): (r: set<SetKey>)
  {
    if us == [] then {}
    else
      match SetKeyOf(ids, us[0])
      case None => OwnKeys(ids, us[1..])
      case Some(k) => {k} + OwnKeys(ids, us[1..])
  }

  /** How many delimiters the unit opens with. */
  function Lead(us: seq<NalUnit>): (n: nat)
    ensures n <= |us|
  {
    if us == [] || !IsDelimiter(us[0]) then 0 else 1 + Lead(us[1..])
  }

  function NonSets(ids: IdParsers, us: seq<NalUnit>): (r: seq<NalUnit>)
  {
    if us == [] then []
    else if SetKeyOf(ids, us[0]) == None then [us[0]] + NonSets(ids, us[1..])
    else NonSets(ids, us[1..])
  }

  function Values(m: seq<Entry>): (s: seq<byte>)
  {
    if m == [] then [] else m[0].bytes + Values(m[1..])
  }

  /** The bytes to push instead of the keyframe, None to push it as it came. */
  function Prefixed(ids: IdParsers, params: seq<Entry>, us: seq<NalUnit>): (r: Option<seq<byte>>)
  {
    var kept := Retain(params, OwnKeys(ids, us));
    if kept == [] then None
    else
      var lead := Lead(us);
      Some(WriteAll(us[..lead]) + Values(Remembered(ids, kept, us)) + WriteAll(NonSets(ids, us[lead..])))
  }

  datatype Pick = Pick(pid: Option<nat>, started: bool, sawAv1: bool, params: seq<Entry>)

  function Fresh(): Pick { Pick(None, false, false, []) }

  /** `admit`: the new state and whether the unit is pushed. */
  function Admitted(p: Pick, u: AccessUnit, key: bool): (Pick, bool)
  {
    if u.codec == Av1 then (p.(sawAv1 := true), false)
    else
      var q := if p.pid == None then p.(pid := Some(u.pid)) else p;
      if q.pid != Some(u.pid) then (q, false)
      else (q.(started := q.started || key), q.started || key)
  }

  /** One turn of the event loop: the new state and what is pushed, if anything. */
  function Fed(ids: IdParsers, p: Pick, u: AccessUnit): (Pick, Option<seq<byte>>)
  {
    var (q, ok) := Admitted(p, u, StartsDecoding(u));
    if !ok then
      (if q.pid == Some(u.pid) then q.(params := Remembered(ids, q.params, Nals(u))) else q, None)
    else
      var au := Prefixed(ids, q.params, Nals(u));
      (q.(params := []), Some(if au.Some? then au.value else u.raw))
  }

  /** Everything pushed for a list of units. */
  function Pushed(ids: IdParsers, p: Pick, units: seq<AccessUnit>): (r: seq<seq<byte>>)
    decreases |units|
  {
    if units == [] then []
    else
      var (q, au) := Fed(ids, p, units[0]);
      (if au.Some? then [au.value] else []) + Pushed(ids, q, units[1..])
  }

  class VideoPick {
    const ids: IdParsers
    var pid: Option<nat>
    var started: bool
    var sawAv1: bool
    var params: seq<Entry>

    ghost function View(): Pick
      reads this
    {
      Pick(pid, started, sawAv1, params)
    }

    constructor (ids: IdParsers)
      ensures View() == Fresh() && this.ids == ids
    {
      this.ids := ids;
      pid, started, sawAv1, params := None, false, false, [];
    }

    method RememberParams(codec: VideoCodec, raw: seq<byte>)
      modifies this`params
      ensures params == Remembered(ids, old(params), Split(raw, codec))
    {
      var us := Split(raw, codec);
      for i := 0 to |us|
        invariant Remembered(ids, params, us[i..]) == Remembered(ids, old(params), us)
      {
        assert us[i..][1..] == us[i + 1..];
        var key := SetKeyOf(ids, us[i]);
        if key.Some? { params := Insert(params, key.value, AnnexBNal(us[i])); }
      }
    }

    method PrefixForKeyframe(codec: VideoCodec, raw: seq<byte>) returns (r: Option<seq<byte>>)
      modifies this`params
      ensures r == Prefixed(ids, old(params), Split(raw, codec))
      ensures params == []
    {
      if params == [] { return None; }
      var sets := params;
      params := [];
      var us := Split(raw, codec);
      sets := Retain(sets, OwnKeys(ids, us));
      if sets == [] { return None; }
      ghost var kept := sets;
      for i := 0 to |us|
        invariant params == []
        invariant Remembered(ids, sets, us[i..]) == Remembered(ids, kept, us)
      {
        assert us[i..][1..] == us[i + 1..];
        var key := SetKeyOf(ids, us[i]);
        if key.Some? { sets := Insert(sets, key.value, AnnexBNal(us[i])); }
      }
      assert sets == Remembered(ids, kept, us) by { assert us[|us|..] == []; }
      var lead := Lead(us);
      var out := WriteEach(us[..lead]);
      out := out + Values(sets);
      var rest := us[lead..];
      ghost var start := out;
      for i := 0 to |rest|
        invariant params == []
        invariant out + WriteAll(NonSets(ids, rest[i..])) == start + WriteAll(NonSets(ids, rest))
      {
        NonSetsStep(ids, rest, i);
        if SetKeyOf(ids, rest[i]) == None {
          AssocBytes(out, AnnexBNal(rest[i]), WriteAll(NonSets(ids, rest[i + 1..])));
          out := out + AnnexBNal(rest[i]);
        }
      }
      assert WriteAll(NonSets(ids, rest[|rest|..])) == [] by { assert rest[|rest|..] == []; }
      assert out == start + WriteAll(NonSets(ids, rest));
      r := Some(out);
    }

    /** Chooses the PID at its first unit, notes AV1, and opens the gate at a keyframe. */
    method Admit(pid: nat, codec: VideoCodec, key: bool) returns (ok: bool)
      modifies this`pid, this`started, this`sawAv1
      ensures (View(), ok) == Admitted(old(View()), AccessUnit(pid, codec, [], false), key)
    {
      if codec == Av1 {
        sawAv1 := true;
        return false;
      }
      if this.pid == None { this.pid := Some(pid); }
      if this.pid != Some(pid) { return false; }
      started := started || key;
      ok := started;
    }
  }

  method WriteEach(us: seq<NalUnit>) returns (out: seq<byte>)
    ensures out == WriteAll(us)
  {
    hide AnnexBNal;
    out := [];
    for i := 0 to |us|
      invariant out == WriteAll(us[..i])
    {
      WriteAllSnoc(us[..i], us[i]);
      assert us[..i + 1] == us[..i] + [us[i]];
      out := out + AnnexBNal(us[i]);
    }
    assert us[..|us|] == us;
  }

  lemma WriteAllSnoc(us: seq<NalUnit>, u: NalUnit)
    ensures WriteAll(us + [u]) == WriteAll(us) + AnnexBNal(u)
  {
    WriteAllConcat(us, [u]);
    WriteOne(u);
  }

  lemma WriteOne(u: NalUnit)
    ensures WriteAll([u]) == AnnexBNal(u)
  {
    assert Written([u]) == [AnnexBNal(u)];
    assert Written([u])[1..] == [];
    assert Flat([]) == [] && AnnexBNal(u) + [] == AnnexBNal(u);
  }

  lemma WriteCons(u: NalUnit, us: seq<NalUnit>)
    ensures WriteAll([u] + us) == AnnexBNal(u) + WriteAll(us)
  {
    WriteAllConcat([u], us);
    WriteOne(u);
  }

  lemma NonSetsStep(ids: IdParsers, us: seq<NalUnit>, i: nat)
    requires i < |us|
    ensures WriteAll(NonSets(ids, us[i..])) ==
            if SetKeyOf(ids, us[i]) == None then AnnexBNal(us[i]) + WriteAll(NonSets(ids, us[i + 1..]))
            else WriteAll(NonSets(ids, us[i + 1..]))
  {
    assert us[i..][0] == us[i] && us[i..][1..] == us[i + 1..];
    WriteCons(us[i], NonSets(ids, us[i + 1..]));
  }

  lemma AssocBytes(a: seq<byte>, b: seq<byte>, c: seq<byte>)
    ensures a + (b + c) == a + b + c
  {}

  /** One turn of the event loop of `main`. */
  method Turn(pick: VideoPick, u: AccessUnit) returns (au: Option<seq<byte>>)
    modifies pick
    ensures (pick.View(), au) == Fed(pick.ids, old(pick.View()), u)
  {
    var ok := pick.Admit(u.pid, u.codec, StartsDecoding(u));
    if !ok {
      if pick.pid == Some(u.pid) { pick.RememberParams(u.codec, u.raw); }
      return None;
    }
    var prefixed := pick.PrefixForKeyframe(u.codec, u.raw);
    au := Some(if prefixed.Some? then prefixed.value else u.raw);
  }

  /** The event loop, from the demuxed units to what is pushed. */
  method Remux(ids: IdParsers, units: seq<AccessUnit>) returns (pushed: seq<seq<byte>>)
    ensures pushed == Pushed(ids, Fresh(), units)
  {
    var pick := new VideoPick(ids);
    pushed := [];
    assert units[0..] == units;
    for i := 0 to |units|
      invariant fresh(pick) && pick.ids == ids
      invariant pushed + Pushed(ids, pick.View(), units[i..]) == Pushed(ids, Fresh(), units)
    {
      PushedStep(ids, pick.View(), units, i);
      var au := Turn(pick, units[i]);
      if au.Some? { pushed := pushed + [au.value]; }
    }
  }

  lemma PushedStep(ids: IdParsers, p: Pick, units: seq<AccessUnit>, i: nat)
    requires i < |units|
    ensures var (q, au) := Fed(ids, p, units[i]);
            forall before: seq<seq<byte>> ::
              before + Pushed(ids, p, units[i..])
              == (if au.Some? then before + [au.value] else before) + Pushed(ids, q, units[i + 1..])
  {
    assert units[i..][0] == units[i] && units[i..][1..] == units[i + 1..];
  }
}
