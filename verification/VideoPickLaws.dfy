/** What re-muxing from the first keyframe preserves: a decoder that starts at the first
    pushed unit holds the same parameter sets as one that read the whole stream. */
module VideoPickLaws {
  import opened Bytes
  import opened NalUnits
  import opened SetMap
  import opened VideoPickModel
  import AnnexB

  // ---- the decoder's parameter sets --------------------------------------------------

  ghost function SetIn(ids: IdParsers, u: NalUnit): map<SetKey, seq<byte>> {
    match SetKeyOf(ids, u)
    case None => map[]
    case Some(k) => map[k := AnnexBNal(u)]
  }

  /** What a decoder that has read `us` holds: for each key, the last set with it. */
  ghost function DecoderSets(ids: IdParsers, us: seq<NalUnit>): map<SetKey, seq<byte>>
  {
    if us == [] then map[] else SetIn(ids, us[0]) + DecoderSets(ids, us[1..])
  }

  lemma {:induction false} DecoderSetsConcat(ids: IdParsers, a: seq<NalUnit>, b: seq<NalUnit>)
    ensures DecoderSets(ids, a + b) == DecoderSets(ids, a) + DecoderSets(ids, b)
  {
    if a == [] {
      assert a + b == b;
    } else {
      DecoderSetsConcat(ids, a[1..], b);
      assert (a + b)[1..] == a[1..] + b && (a + b)[0] == a[0];
      MergeAssoc(SetIn(ids, a[0]), DecoderSets(ids, a[1..]), DecoderSets(ids, b));
    }
  }

  lemma MergeAssoc(a: map<SetKey, seq<byte>>, b: map<SetKey, seq<byte>>, c: map<SetKey, seq<byte>>)
    ensures a + (b + c) == a + b + c
  {}

  lemma MergeStep(m: map<SetKey, seq<byte>>, k: SetKey, v: seq<byte>, rest: map<SetKey, seq<byte>>)
    ensures m[k := v] + rest == m + (map[k := v] + rest)
  {}

  lemma MergeEmpty(m: map<SetKey, seq<byte>>)
    ensures m + map[] == m && map[] + m == m
  {}

  lemma {:induction false} RememberedMap(ids: IdParsers, m: seq<Entry>, us: seq<NalUnit>)
    requires Sorted(m)
    ensures Sorted(Remembered(ids, m, us))
    ensures ToMap(Remembered(ids, m, us)) == ToMap(m) + DecoderSets(ids, us)
    decreases |us|
  {
    if us == [] {
      MergeEmpty(ToMap(m));
    } else {
      var k, rest := SetKeyOf(ids, us[0]), DecoderSets(ids, us[1..]);
      if k.None? {
        RememberedMap(ids, m, us[1..]);
        MergeEmpty(rest);
      } else {
        var v := AnnexBNal(us[0]);
        InsertSorted(m, k.value, v);
        InsertMap(m, k.value, v);
        RememberedMap(ids, Insert(m, k.value, v), us[1..]);
        MergeStep(ToMap(m), k.value, v, rest);
      }
    }
  }

  lemma {:induction false} OwnKeysAreDecoderKeys(ids: IdParsers, us: seq<NalUnit>)
    ensures OwnKeys(ids, us) == DecoderSets(ids, us).Keys
  {
    if us != [] { OwnKeysAreDecoderKeys(ids, us[1..]); }
  }

  lemma {:induction false} NonSetsHoldNone(ids: IdParsers, us: seq<NalUnit>)
    ensures DecoderSets(ids, NonSets(ids, us)) == map[]
  {
    if us != [] {
      NonSetsHoldNone(ids, us[1..]);
      if SetKeyOf(ids, us[0]) == None { assert NonSets(ids, us)[1..] == NonSets(ids, us[1..]); }
    }
  }

  lemma {:induction false} LeadHoldsNone(ids: IdParsers, us: seq<NalUnit>)
    ensures DecoderSets(ids, us[..Lead(us)]) == map[]
    ensures NonSets(ids, us[..Lead(us)]) == us[..Lead(us)]
  {
    if us != [] && IsDelimiter(us[0]) {
      LeadHoldsNone(ids, us[1..]);
      var d := us[..Lead(us)];
      assert d[0] == us[0] && d[1..] == us[1..][..Lead(us[1..])];
      assert SetKeyOf(ids, us[0]) == None;
    }
  }

  // ---- what the splitter returns -----------------------------------------------------

  /** Units of one codec whose parameter sets and delimiters hold no start code. */
  ghost predicate Sound(ids: IdParsers, us: seq<NalUnit>, codec: VideoCodec) {
    forall u | u in us :: Fits(u, codec) && (SetKeyOf(ids, u).Some? || IsDelimiter(u) ==> AnnexB.NoCode(NalBytes(u)))
  }

  lemma {:induction false} ParsedAllSound(ids: IdParsers, slices: seq<seq<byte>>, codec: VideoCodec)
    requires codec != Av1 && forall k | 0 <= k < |slices| :: AnnexB.NoCode(slices[k])
    ensures Sound(ids, ParsedAll(slices, codec), codec)
  {
    if slices != [] {
      ParsedAllSound(ids, slices[1..], codec);
      ParsedSound(ids, slices[0], codec);
    }
  }

  /** A unit that opens 80 00 01 has NAL type 0, so it is no set and no delimiter. */
  lemma ParsedSound(ids: IdParsers, nal: seq<byte>, codec: VideoCodec)
    requires codec != Av1 && AnnexB.NoCode(nal)
    ensures var u := Parsed(nal, codec);
            u.Some? && (SetKeyOf(ids, u.value).Some? || IsDelimiter(u.value)) ==> !Spells(nal) && AnnexB.NoCode(NalBytes(u.value))
  {
    if Parsed(nal, codec).Some? {
      RebuiltNoCode(nal, codec);
      if Spells(nal) { SpellsType(nal, codec); }
    }
  }

  lemma SplitSound(ids: IdParsers, raw: seq<byte>, codec: VideoCodec)
    requires codec != Av1
    ensures Sound(ids, Split(raw, codec), codec)
  {
    SlicesClean(raw);
    ParsedAllSound(ids, AnnexB.Slices(raw), codec);
  }

  // ---- the kept sets as units --------------------------------------------------------

  /** Entry `e` holds the bytes of the set `u`. */
  ghost predicate Holds(ids: IdParsers, codec: VideoCodec, e: Entry, u: NalUnit) {
    && Fits(u, codec) && AnnexB.NoCode(NalBytes(u))
    && SetKeyOf(ids, u) == Some(e.key) && e.bytes == AnnexBNal(u)
  }

  ghost predicate HoldsSet(ids: IdParsers, codec: VideoCodec, e: Entry) {
    exists u :: Holds(ids, codec, e, u)
  }

  ghost predicate Backed(ids: IdParsers, codec: VideoCodec, m: seq<Entry>) {
    forall e | e in m :: HoldsSet(ids, codec, e)
  }

  /** The sets behind the entries, in order. */
  ghost function Behind(ids: IdParsers, codec: VideoCodec, m: seq<Entry>): (us: seq<NalUnit>)
    requires Backed(ids, codec, m)
    ensures |us| == |m| && forall i | 0 <= i < |m| :: Holds(ids, codec, m[i], us[i])
  {
    if m == [] then []
    else
      assert HoldsSet(ids, codec, m[0]);
      [SetOf(ids, codec, m[0])] + Behind(ids, codec, m[1..])
  }

  ghost function SetOf(ids: IdParsers, codec: VideoCodec, e: Entry): (u: NalUnit)
    requires HoldsSet(ids, codec, e)
    ensures Holds(ids, codec, e, u)
  {
    var u :| Holds(ids, codec, e, u);
    u
  }

  lemma {:induction false} InsertBacked(ids: IdParsers, codec: VideoCodec, m: seq<Entry>, k: SetKey, u: NalUnit)
    requires Backed(ids, codec, m) && Holds(ids, codec, Entry(k, AnnexBNal(u)), u)
    ensures Backed(ids, codec, Insert(m, k, AnnexBNal(u)))
  {
    assert HoldsSet(ids, codec, Entry(k, AnnexBNal(u)));
    InsertMembers(m, k, AnnexBNal(u));
  }

  lemma {:induction false} RememberedBacked(ids: IdParsers, codec: VideoCodec, m: seq<Entry>, us: seq<NalUnit>)
    requires Backed(ids, codec, m) && Sound(ids, us, codec)
    ensures Backed(ids, codec, Remembered(ids, m, us))
    decreases |us|
  {
    if us != [] {
      assert us[0] in us;
      var k := SetKeyOf(ids, us[0]);
      if k.None? {
        RememberedBacked(ids, codec, m, us[1..]);
      } else {
        InsertBacked(ids, codec, m, k.value, us[0]);
        RememberedBacked(ids, codec, Insert(m, k.value, AnnexBNal(us[0])), us[1..]);
      }
    }
  }

  lemma {:induction false} ValuesWritten(ids: IdParsers, codec: VideoCodec, m: seq<Entry>)
    requires Backed(ids, codec, m)
    ensures Values(m) == WriteAll(Behind(ids, codec, m))
  {
    if m != [] {
      assert m[0] in m;
      ValuesWritten(ids, codec, m[1..]);
      var us := Behind(ids, codec, m);
      assert us == [us[0]] + us[1..] && us[1..] == Behind(ids, codec, m[1..]);
      WriteCons(us[0], us[1..]);
    }
  }

  lemma BehindTail(ids: IdParsers, codec: VideoCodec, m: seq<Entry>)
    requires Backed(ids, codec, m) && m != []
    ensures Backed(ids, codec, m[1..])
    ensures var us := Behind(ids, codec, m);
            us[1..] == Behind(ids, codec, m[1..]) && Holds(ids, codec, m[0], us[0])
  {
    var us := Behind(ids, codec, m);
    assert Holds(ids, codec, m[0], us[0]);
  }

  lemma {:induction false} BehindSets(ids: IdParsers, codec: VideoCodec, m: seq<Entry>)
    requires Backed(ids, codec, m) && Sorted(m)
    ensures DecoderSets(ids, Behind(ids, codec, m)) == ToMap(m)
  {
    if m != [] {
      BehindTail(ids, codec, m);
      BehindSets(ids, codec, m[1..]);
      ToMapKeys(m[1..]);
      KeyTotal(m[0].key, m[0].key);
      assert m[0].key !in ToMap(m[1..]);
      MergeFresh(ToMap(m[1..]), m[0].key, m[0].bytes);
    }
  }

  lemma MergeFresh(m: map<SetKey, seq<byte>>, k: SetKey, v: seq<byte>)
    requires k !in m
    ensures map[k := v] + m == m[k := v]
  {}

  lemma {:induction false} BehindAreSets(ids: IdParsers, codec: VideoCodec, m: seq<Entry>)
    requires Backed(ids, codec, m)
    ensures NonSets(ids, Behind(ids, codec, m)) == []
  {
    if m != [] {
      BehindTail(ids, codec, m);
      BehindAreSets(ids, codec, m[1..]);
    }
  }

  lemma BehindWritable(ids: IdParsers, codec: VideoCodec, m: seq<Entry>)
    requires Backed(ids, codec, m)
    ensures Writable(Behind(ids, codec, m), codec)
  {
    var us := Behind(ids, codec, m);
    forall u | u in us ensures Fits(u, codec) && AnnexB.NoCode(NalBytes(u)) {
      var i :| 0 <= i < |us| && us[i] == u;
      assert Holds(ids, codec, m[i], us[i]);
    }
  }

  // ---- the rewritten keyframe --------------------------------------------------------

  /** The sets the rewritten keyframe carries: the kept ones it lacks and its own. */
  ghost function AllSets(ids: IdParsers, params: seq<Entry>, us: seq<NalUnit>): seq<Entry> {
    Remembered(ids, Retain(params, OwnKeys(ids, us)), us)
  }

  /** The rewritten keyframe as units: delimiters, sets in key order, the rest. */
  ghost function RewrittenUnits(ids: IdParsers, codec: VideoCodec, params: seq<Entry>, us: seq<NalUnit>): seq<NalUnit>
    requires Backed(ids, codec, AllSets(ids, params, us))
  {
    us[..Lead(us)] + Behind(ids, codec, AllSets(ids, params, us)) + NonSets(ids, us[Lead(us)..])
  }

  lemma AllSetsKept(ids: IdParsers, codec: VideoCodec, params: seq<Entry>, us: seq<NalUnit>)
    requires Sorted(params) && Backed(ids, codec, params) && Sound(ids, us, codec)
    ensures Sorted(AllSets(ids, params, us)) && Backed(ids, codec, AllSets(ids, params, us))
    ensures ToMap(AllSets(ids, params, us)) == ToMap(params) + DecoderSets(ids, us)
  {
    var own := OwnKeys(ids, us);
    RetainSorted(params, own);
    RetainMembers(params, own);
    RetainMap(params, own);
    RememberedMap(ids, Retain(params, own), us);
    RememberedBacked(ids, codec, Retain(params, own), us);
    OwnKeysAreDecoderKeys(ids, us);
    MergeOverwrites(ToMap(params), DecoderSets(ids, us));
  }

  lemma MergeOverwrites(a: map<SetKey, seq<byte>>, b: map<SetKey, seq<byte>>)
    ensures (a - b.Keys) + b == a + b
  {}

  lemma {:induction false} NonSetsMembers(ids: IdParsers, us: seq<NalUnit>)
    ensures forall u | u in NonSets(ids, us) :: u in us
  {
    if us != [] { NonSetsMembers(ids, us[1..]); }
  }

  /** The bytes pushed are those units written out. */
  lemma RewrittenBytes(ids: IdParsers, codec: VideoCodec, params: seq<Entry>, us: seq<NalUnit>)
    requires Backed(ids, codec, AllSets(ids, params, us)) && Prefixed(ids, params, us).Some?
    ensures Prefixed(ids, params, us).value == WriteAll(RewrittenUnits(ids, codec, params, us))
  {
    var all, lead := AllSets(ids, params, us), Lead(us);
    var sets, rest := Behind(ids, codec, all), NonSets(ids, us[lead..]);
    ValuesWritten(ids, codec, all);
    WriteAllConcat(us[..lead], sets);
    WriteAllConcat(us[..lead] + sets, rest);
  }

  /** Splitting them gives the delimiters and the sets, and then what the rest is read back as. */
  lemma RewrittenReread(ids: IdParsers, codec: VideoCodec, params: seq<Entry>, us: seq<NalUnit>)
    requires codec != Av1 && Sorted(params) && Backed(ids, codec, params) && Sound(ids, us, codec)
    requires Prefixed(ids, params, us).Some? && Backed(ids, codec, AllSets(ids, params, us))
    ensures Split(Prefixed(ids, params, us).value, codec)
         == us[..Lead(us)] + Behind(ids, codec, AllSets(ids, params, us)) + Rereads(NonSets(ids, us[Lead(us)..]), codec)
  {
    var all, lead := AllSets(ids, params, us), Lead(us);
    var sets, rest := Behind(ids, codec, all), NonSets(ids, us[lead..]);
    RewrittenBytes(ids, codec, params, us);
    SplitWritten(us[..lead] + sets + rest, codec);
    RereadsConcat(us[..lead], sets, codec);
    RereadsConcat(us[..lead] + sets, rest, codec);
    LeadWritable(ids, us, codec);
    BehindWritable(ids, codec, all);
    RereadsWhole(us[..lead], codec);
    RereadsWhole(sets, codec);
  }

  /** Splitting gives the rewritten units exactly when every unit of the keyframe is free of
      start codes. */
  lemma RewrittenSplits(ids: IdParsers, codec: VideoCodec, params: seq<Entry>, us: seq<NalUnit>)
    requires codec != Av1 && Sorted(params) && Backed(ids, codec, params) && Sound(ids, us, codec)
    requires Prefixed(ids, params, us).Some?
    ensures Backed(ids, codec, AllSets(ids, params, us))
    ensures Split(Prefixed(ids, params, us).value, codec) == RewrittenUnits(ids, codec, params, us) <==> Writable(us, codec)
  {
    AllSetsKept(ids, codec, params, us);
    var all := AllSets(ids, params, us);
    RewrittenBytes(ids, codec, params, us);
    BehindWritable(ids, codec, all);
    RewrittenWritable(ids, us, Behind(ids, codec, all), codec);
    SplitInvertsWrite(RewrittenUnits(ids, codec, params, us), codec);
  }

  lemma LeadWritable(ids: IdParsers, us: seq<NalUnit>, codec: VideoCodec)
    requires Sound(ids, us, codec)
    ensures Writable(us[..Lead(us)], codec)
  {
    LeadStops(us);
  }

  lemma WritableConcat(a: seq<NalUnit>, b: seq<NalUnit>, codec: VideoCodec)
    ensures Writable(a + b, codec) <==> Writable(a, codec) && Writable(b, codec)
  {
    assert forall u :: u in a + b <==> u in a || u in b;
  }

  /** Only the units that are no set can hold a start code. */
  lemma {:induction false} NonSetsWritable(ids: IdParsers, us: seq<NalUnit>, codec: VideoCodec)
    requires Sound(ids, us, codec)
    ensures Writable(NonSets(ids, us), codec) <==> Writable(us, codec)
  {
    if us != [] {
      assert us[0] in us && us == [us[0]] + us[1..];
      NonSetsWritable(ids, us[1..], codec);
      WritableCons(us[0], us[1..], codec);
      WritableCons(us[0], NonSets(ids, us[1..]), codec);
    }
  }

  lemma RewrittenWritable(ids: IdParsers, us: seq<NalUnit>, sets: seq<NalUnit>, codec: VideoCodec)
    requires Sound(ids, us, codec) && Writable(sets, codec)
    ensures var out := us[..Lead(us)] + sets + NonSets(ids, us[Lead(us)..]);
            (Writable(out, codec) <==> Writable(us, codec)) && forall u | u in out :: Fits(u, codec)
  {
    hide Lead, NonSets, SetKeyOf, Fits, NalBytes, AnnexB.NoCode;
    var head, tail := us[..Lead(us)], us[Lead(us)..];
    LeadWritable(ids, us, codec);
    NonSetsWritable(ids, tail, codec);
    NonSetsMembers(ids, tail);
    WritableConcat(head, tail, codec);
    assert us == head + tail;
    WritableConcat(head, sets, codec);
    WritableConcat(head + sets, NonSets(ids, tail), codec);
    AllFit(head, sets, NonSets(ids, tail), codec);
  }

  lemma AllFit(a: seq<NalUnit>, b: seq<NalUnit>, c: seq<NalUnit>, codec: VideoCodec)
    requires forall u | u in a :: Fits(u, codec)
    requires forall u | u in b :: Fits(u, codec)
    requires forall u | u in c :: Fits(u, codec)
    ensures forall u | u in a + b + c :: Fits(u, codec)
  {
    hide Fits;
    forall u | u in a + b + c ensures Fits(u, codec) { assert u in a || u in b || u in c; }
  }

  /** The sets of the rewritten keyframe, as a decoder reads them. */
  lemma RewrittenSets(ids: IdParsers, codec: VideoCodec, params: seq<Entry>, us: seq<NalUnit>)
    requires Sorted(params) && Backed(ids, codec, params) && Sound(ids, us, codec)
    requires Backed(ids, codec, AllSets(ids, params, us))
    ensures DecoderSets(ids, RewrittenUnits(ids, codec, params, us)) == ToMap(params) + DecoderSets(ids, us)
  {
    AllSetsKept(ids, codec, params, us);
    var all, lead := AllSets(ids, params, us), Lead(us);
    var sets, rest := Behind(ids, codec, all), NonSets(ids, us[lead..]);
    DecoderSetsConcat(ids, us[..lead], sets);
    DecoderSetsConcat(ids, us[..lead] + sets, rest);
    LeadHoldsNone(ids, us);
    BehindSets(ids, codec, all);
    NonSetsHoldNone(ids, us[lead..]);
    MergeEmpty(ToMap(all));
  }

  /** Parameter sets in strictly ascending key order. */
  ghost predicate InKeyOrder(ids: IdParsers, us: seq<NalUnit>) {
    && (forall i | 0 <= i < |us| :: SetKeyOf(ids, us[i]).Some?)
    && (forall i, j | 0 <= i < j < |us| :: KeyLess(SetKeyOf(ids, us[i]).value, SetKeyOf(ids, us[j]).value))
  }

  lemma SetsInOrder(ids: IdParsers, codec: VideoCodec, all: seq<Entry>)
    requires Sorted(all) && Backed(ids, codec, all)
    ensures InKeyOrder(ids, Behind(ids, codec, all))
  {
    var sets := Behind(ids, codec, all);
    forall i | 0 <= i < |sets| ensures SetKeyOf(ids, sets[i]) == Some(all[i].key) {
      assert Holds(ids, codec, all[i], sets[i]);
    }
    forall i, j | 0 <= i < j < |sets| ensures KeyLess(all[i].key, all[j].key) { SortedPair(all, i, j); }
  }

  /** The rewritten keyframe opens with the delimiters it had, goes on with parameter sets
      in strictly ascending key order, and keeps every other unit, once and in order. */
  lemma RewrittenShape(ids: IdParsers, codec: VideoCodec, params: seq<Entry>, us: seq<NalUnit>)
    requires Sorted(params) && Backed(ids, codec, params) && Sound(ids, us, codec)
    requires Backed(ids, codec, AllSets(ids, params, us))
    ensures var out, lead := RewrittenUnits(ids, codec, params, us), Lead(us);
            var sets := Behind(ids, codec, AllSets(ids, params, us));
            && out == us[..lead] + sets + NonSets(ids, us[lead..])
            && (forall i | 0 <= i < lead :: IsDelimiter(us[i])) && (lead < |us| ==> !IsDelimiter(us[lead]))
            && InKeyOrder(ids, sets)
            && NonSets(ids, out) == NonSets(ids, us)
  {
    AllSetsKept(ids, codec, params, us);
    var all := AllSets(ids, params, us);
    var sets := Behind(ids, codec, all);
    LeadStops(us);
    SetsInOrder(ids, codec, all);
    BehindAreSets(ids, codec, all);
    RewrittenKeepsOthers(ids, sets, us);
  }

  lemma RewrittenKeepsOthers(ids: IdParsers, sets: seq<NalUnit>, us: seq<NalUnit>)
    requires NonSets(ids, sets) == []
    ensures NonSets(ids, us[..Lead(us)] + sets + NonSets(ids, us[Lead(us)..])) == NonSets(ids, us)
  {
    var lead := Lead(us);
    var head, tail := us[..lead], us[lead..];
    var rest := NonSets(ids, tail);
    NonSetsConcat(ids, head, sets);
    NonSetsConcat(ids, head + sets, rest);
    NonSetsIdempotent(ids, tail);
    NonSetsConcat(ids, head, tail);
    assert us == head + tail;
    assert NonSets(ids, head) + [] == NonSets(ids, head);
  }

  lemma {:induction false} NonSetsConcat(ids: IdParsers, a: seq<NalUnit>, b: seq<NalUnit>)
    ensures NonSets(ids, a + b) == NonSets(ids, a) + NonSets(ids, b)
  {
    hide SetKeyOf;
    if a == [] {
      assert a + b == b;
    } else {
      NonSetsConcat(ids, a[1..], b);
      assert (a + b)[1..] == a[1..] + b && (a + b)[0] == a[0];
    }
  }

  lemma {:induction false} NonSetsIdempotent(ids: IdParsers, us: seq<NalUnit>)
    ensures NonSets(ids, NonSets(ids, us)) == NonSets(ids, us)
  {
    if us != [] {
      NonSetsIdempotent(ids, us[1..]);
      if SetKeyOf(ids, us[0]) == None { assert NonSets(ids, us)[1..] == NonSets(ids, us[1..]); }
    }
  }

  lemma {:induction false} LeadStops(us: seq<NalUnit>)
    ensures Lead(us) < |us| ==> !IsDelimiter(us[Lead(us)])
    ensures forall i | 0 <= i < Lead(us) :: IsDelimiter(us[i])
  {
    if us != [] && IsDelimiter(us[0]) {
      LeadStops(us[1..]);
      forall i | 0 <= i < Lead(us) ensures IsDelimiter(us[i]) {
        if i > 0 { assert us[i] == us[1..][i - 1]; }
      }
    }
  }

  lemma {:induction false} SortedPair(m: seq<Entry>, i: nat, j: nat)
    requires Sorted(m) && i < j < |m|
    ensures KeyLess(m[i].key, m[j].key)
  {
    if i == 0 {
      assert m[1..][j - 1] in m[1..];
    } else {
      SortedPair(m[1..], i - 1, j - 1);
    }
  }

  // ---- whole runs --------------------------------------------------------------------

  /** The units of PID `pid` that are not AV1. */
  ghost function Mine(units: seq<AccessUnit>, pid: nat): seq<AccessUnit>
  {
    if units == [] then []
    else if units[0].pid == pid && units[0].codec != Av1 then [units[0]] + Mine(units[1..], pid)
    else Mine(units[1..], pid)
  }

  /** The PID re-muxed: the first that carries video other than AV1. */
  ghost function Selected(units: seq<AccessUnit>): Option<nat>
  {
    if units == [] then None
    else if units[0].codec != Av1 then Some(units[0].pid)
    else Selected(units[1..])
  }

  /** The index of the first unit decoding can start from, or the length when there is none. */
  ghost function FirstKey(units: seq<AccessUnit>): (n: nat)
    ensures n <= |units| && (n < |units| ==> StartsDecoding(units[n]))
    ensures forall i | 0 <= i < n :: !StartsDecoding(units[i])
  {
    if units == [] || StartsDecoding(units[0]) then 0 else 1 + FirstKey(units[1..])
  }

  ghost function AllNals(units: seq<AccessUnit>): seq<NalUnit>
  {
    if units == [] then [] else Nals(units[0]) + AllNals(units[1..])
  }

  ghost function Raws(units: seq<AccessUnit>): (r: seq<seq<byte>>)
    ensures |r| == |units| && forall i | 0 <= i < |units| :: r[i] == units[i].raw
  {
    seq(|units|, i requires 0 <= i < |units| => units[i].raw)
  }

  /** The first push: the keyframe, completed with the sets of the units skipped. */
  ghost function FirstPush(ids: IdParsers, params: seq<Entry>, kf: AccessUnit): seq<byte> {
    var au := Prefixed(ids, params, Nals(kf));
    if au.Some? then au.value else kf.raw
  }

  /** What is pushed of the selected PID's own units, given the sets kept so far. */
  ghost function Expected(ids: IdParsers, params: seq<Entry>, mine: seq<AccessUnit>): seq<seq<byte>>
    decreases |mine|
  {
    if mine == [] then []
    else if StartsDecoding(mine[0]) then [FirstPush(ids, params, mine[0])] + Raws(mine[1..])
    else Expected(ids, Remembered(ids, params, Nals(mine[0])), mine[1..])
  }

  lemma NothingKept(ids: IdParsers, us: seq<NalUnit>)
    ensures Prefixed(ids, [], us) == None
  {}

  lemma Av1HoldsNone(ids: IdParsers, params: seq<Entry>, u: AccessUnit)
    ensures u.codec == Av1 ==> Remembered(ids, params, Nals(u)) == params
  {}

  /** Once started, every unit of the PID is pushed as it came. */
  lemma {:induction false} StartedPushesRaw(ids: IdParsers, p: Pick, units: seq<AccessUnit>)
    requires p.started && p.pid.Some? && p.params == []
    ensures Pushed(ids, p, units) == Raws(Mine(units, p.pid.value))
    decreases |units|
  {
    hide Prefixed, Nals, StartsDecoding, Remembered;
    if units != [] {
      var (q, au) := Fed(ids, p, units[0]);
      NothingKept(ids, Nals(units[0]));
      Av1HoldsNone(ids, p.params, units[0]);
      assert q == p.(sawAv1 := q.sawAv1);
      StartedPushesRaw(ids, q, units[1..]);
      var pid := p.pid.value;
      if units[0].pid == pid && units[0].codec != Av1 {
        assert Raws(Mine(units, pid)) == [units[0].raw] + Raws(Mine(units[1..], pid));
      }
    }
  }

  /** Before the first keyframe the PID's sets are remembered. */
  lemma {:induction false} WaitingPushesExpected(ids: IdParsers, p: Pick, units: seq<AccessUnit>)
    requires !p.started && p.pid.Some?
    ensures Pushed(ids, p, units) == Expected(ids, p.params, Mine(units, p.pid.value))
    decreases |units|
  {
    if units != [] {
      var u, rest, pid := units[0], units[1..], p.pid.value;
      var (q, au) := Fed(ids, p, u);
      var mine := Mine(rest, pid);
      if u.pid == pid && u.codec != Av1 {
        assert Mine(units, pid)[1..] == mine;
        if StartsDecoding(u) {
          StartedPushesRaw(ids, q, rest);
        } else {
          WaitingPushesExpected(ids, q, rest);
        }
      } else {
        assert q.params == p.params;
        WaitingPushesExpected(ids, q, rest);
      }
    }
  }

  lemma FreshState()
    ensures Fresh().(sawAv1 := false) == Fresh()
  {}

  lemma {:induction false} FreshPushesExpected(ids: IdParsers, sawAv1: bool, units: seq<AccessUnit>)
    ensures Pushed(ids, Fresh().(sawAv1 := sawAv1), units) ==
            match Selected(units) case None => [] case Some(pid) => Expected(ids, [], Mine(units, pid))
    decreases |units|
  {
    if units != [] {
      var p, u := Fresh().(sawAv1 := sawAv1), units[0];
      if u.codec == Av1 {
        FreshPushesExpected(ids, true, units[1..]);
      } else {
        PidFirstSeen(ids, p, units);
        WaitingPushesExpected(ids, p.(pid := Some(u.pid)), units);
      }
    }
  }

  /** Selecting the PID at its first unit is as if it had been selected already. */
  lemma PidFirstSeen(ids: IdParsers, p: Pick, units: seq<AccessUnit>)
    requires units != [] && units[0].codec != Av1 && p.pid == None
    ensures Pushed(ids, p, units) == Pushed(ids, p.(pid := Some(units[0].pid)), units)
  {}

  lemma NothingSkipped(ids: IdParsers, params: seq<Entry>)
    ensures Remembered(ids, params, AllNals([])) == params
  {}

  lemma AllNalsSkip(mine: seq<AccessUnit>, f: nat)
    requires 0 < f <= |mine|
    ensures AllNals(mine[..f]) == Nals(mine[0]) + AllNals(mine[1..][..f - 1])
  {
    assert mine[..f][0] == mine[0] && mine[..f][1..] == mine[1..][..f - 1];
  }

  lemma {:induction false} ExpectedExact(ids: IdParsers, params: seq<Entry>, mine: seq<AccessUnit>)
    ensures var f := FirstKey(mine);
            Expected(ids, params, mine) ==
            if f == |mine| then []
            else [FirstPush(ids, Remembered(ids, params, AllNals(mine[..f])), mine[f])] + Raws(mine[f + 1..])
    decreases |mine|
  {
    hide StartsDecoding, Remembered, Nals, FirstPush;
    if mine != [] && !StartsDecoding(mine[0]) {
      var next := Remembered(ids, params, Nals(mine[0]));
      ExpectedExact(ids, next, mine[1..]);
      var f := FirstKey(mine);
      if f < |mine| {
        AllNalsSkip(mine, f);
        assert mine[1..][f..] == mine[f + 1..];
        RememberedConcat(ids, params, Nals(mine[0]), AllNals(mine[1..][..f - 1]));
      }
    } else if mine != [] {
      assert mine[..0] == [];
      NothingSkipped(ids, params);
    }
  }

  lemma {:induction false} RememberedConcat(ids: IdParsers, m: seq<Entry>, a: seq<NalUnit>, b: seq<NalUnit>)
    ensures Remembered(ids, m, a + b) == Remembered(ids, Remembered(ids, m, a), b)
    decreases |a|
  {
    if a == [] {
      assert a + b == b;
    } else {
      assert (a + b)[1..] == a[1..] + b && (a + b)[0] == a[0];
      var k := SetKeyOf(ids, a[0]);
      RememberedConcat(ids, if k.None? then m else Insert(m, k.value, AnnexBNal(a[0])), a[1..], b);
    }
  }

  /** Every run: nothing is pushed before the selected PID's first keyframe, that keyframe
      is the only unit ever rewritten, and every later unit of the PID goes out as it came. */
  lemma RunExact(ids: IdParsers, units: seq<AccessUnit>)
    ensures Pushed(ids, Fresh(), units) ==
            match Selected(units)
            case None => []
            case Some(pid) =>
              var mine := Mine(units, pid);
              var f := FirstKey(mine);
              if f == |mine| then []
              else [FirstPush(ids, Remembered(ids, [], AllNals(mine[..f])), mine[f])] + Raws(mine[f + 1..])
  {
    hide *;
    FreshState();
    FreshPushesExpected(ids, false, units);
    if Selected(units).Some? { ExpectedExact(ids, [], Mine(units, Selected(units).value)); }
  }

  // ---- what a spelled start code adds ------------------------------------------------

  /** The units that appear behind the start codes spelled by rewriting `slices`. */
  ghost function Spilled(slices: seq<seq<byte>>, codec: VideoCodec): seq<NalUnit>
  {
    if slices == [] then []
    else (if Spells(slices[0]) then Phantom(slices[0], codec) else []) + Spilled(slices[1..], codec)
  }

  lemma DecoderSetsCons(ids: IdParsers, u: NalUnit, us: seq<NalUnit>)
    requires SetKeyOf(ids, u) == None
    ensures DecoderSets(ids, [u] + us) == DecoderSets(ids, us)
  {
    assert ([u] + us)[1..] == us;
    MergeEmpty(DecoderSets(ids, us));
  }

  lemma NonSetsOfParsed(ids: IdParsers, slices: seq<seq<byte>>, codec: VideoCodec)
    requires slices != []
    ensures var u, rest := Parsed(slices[0], codec), NonSets(ids, ParsedAll(slices[1..], codec));
            NonSets(ids, ParsedAll(slices, codec)) ==
            if u.Some? && SetKeyOf(ids, u.value) == None then [u.value] + rest else rest
  {
    var u, rest := Parsed(slices[0], codec), ParsedAll(slices[1..], codec);
    if u.Some? { assert ([u.value] + rest)[1..] == rest; }
  }

  lemma RereadsCons(u: NalUnit, us: seq<NalUnit>, codec: VideoCodec)
    ensures Rereads([u] + us, codec) == Reread(u, codec) + Rereads(us, codec)
  {
    assert ([u] + us)[1..] == us;
  }

  /** The sets a decoder finds in the rewritten rest are those that spilled out. */
  lemma {:induction false} SpilledSets(ids: IdParsers, slices: seq<seq<byte>>, codec: VideoCodec)
    requires codec != Av1 && forall k | 0 <= k < |slices| :: AnnexB.NoCode(slices[k])
    ensures DecoderSets(ids, Rereads(NonSets(ids, ParsedAll(slices, codec)), codec))
         == DecoderSets(ids, Spilled(slices, codec))
  {
    if slices != [] {
      var nal, tail := slices[0], slices[1..];
      SpilledSets(ids, tail, codec);
      SpilledOne(ids, nal, NonSets(ids, ParsedAll(tail, codec)), Spilled(tail, codec), codec);
      NonSetsOfParsed(ids, slices, codec);
    }
  }

  lemma SpilledOne(ids: IdParsers, nal: seq<byte>, rest: seq<NalUnit>, spilled: seq<NalUnit>, codec: VideoCodec)
    requires codec != Av1 && AnnexB.NoCode(nal)
    requires DecoderSets(ids, Rereads(rest, codec)) == DecoderSets(ids, spilled)
    ensures var u := Parsed(nal, codec);
            var all := if u.Some? && SetKeyOf(ids, u.value) == None then [u.value] + rest else rest;
            DecoderSets(ids, Rereads(all, codec))
            == DecoderSets(ids, (if Spells(nal) then Phantom(nal, codec) else []) + spilled)
  {
    hide Rereads, Reread, DecoderSets;
    var u := Parsed(nal, codec);
    ParsedSound(ids, nal, codec);
    assert [] + spilled == spilled;
    if Spells(nal) {
      SpellsType(nal, codec);
      RereadSpelled(nal, codec);
      RereadsCons(u.value, rest, codec);
      DecoderSetsConcat(ids, Phantom(nal, codec), Rereads(rest, codec));
      DecoderSetsConcat(ids, Phantom(nal, codec), spilled);
    } else if u.Some? && SetKeyOf(ids, u.value) == None {
      RebuiltNoCode(nal, codec);
      RereadWhole(u.value, codec);
      RereadsCons(u.value, rest, codec);
      DecoderSetsCons(ids, u.value, Rereads(rest, codec));
    }
  }

  /** The same without the delimiters, which stay in front. */
  lemma SpilledBehindLead(ids: IdParsers, raw: seq<byte>, codec: VideoCodec)
    requires codec != Av1
    ensures var us := Split(raw, codec);
            DecoderSets(ids, Rereads(NonSets(ids, us[Lead(us)..]), codec))
            == DecoderSets(ids, Spilled(AnnexB.Slices(raw), codec))
  {
    hide Rereads;
    var us := Split(raw, codec);
    var head, tail := us[..Lead(us)], us[Lead(us)..];
    SlicesClean(raw);
    SpilledSets(ids, AnnexB.Slices(raw), codec);
    assert us == head + tail;
    NonSetsConcat(ids, head, tail);
    LeadHoldsNone(ids, us);
    SplitSound(ids, raw, codec);
    LeadWritable(ids, us, codec);
    RereadsConcat(head, NonSets(ids, tail), codec);
    RereadsWhole(head, codec);
    DecoderSetsConcat(ids, head, Rereads(NonSets(ids, tail), codec));
    MergeEmpty(DecoderSets(ids, Rereads(NonSets(ids, tail), codec)));
  }

  // ---- the first push ----------------------------------------------------------------

  ghost predicate OneCodec(units: seq<AccessUnit>, codec: VideoCodec) {
    forall u | u in units :: u.codec == codec
  }

  lemma {:induction false} AllNalsSound(ids: IdParsers, units: seq<AccessUnit>, codec: VideoCodec)
    requires codec != Av1 && OneCodec(units, codec)
    ensures Sound(ids, AllNals(units), codec)
  {
    if units != [] {
      assert units[0] in units;
      SplitSound(ids, units[0].raw, codec);
      AllNalsSound(ids, units[1..], codec);
    }
  }

  /** What was kept of the skipped units. */
  lemma Kept(ids: IdParsers, codec: VideoCodec, skipped: seq<AccessUnit>)
    requires codec != Av1 && OneCodec(skipped, codec)
    ensures var params := Remembered(ids, [], AllNals(skipped));
            Sorted(params) && Backed(ids, codec, params) && ToMap(params) == DecoderSets(ids, AllNals(skipped))
  {
    var before := AllNals(skipped);
    AllNalsSound(ids, skipped, codec);
    RememberedMap(ids, [], before);
    RememberedBacked(ids, codec, [], before);
    MergeEmpty(DecoderSets(ids, before));
  }

  /** The first push, whatever was skipped: not rewritten, it splits as the keyframe did;
      rewritten, it splits into the rewritten units exactly when no unit of the keyframe opens
      80 00 01. */
  lemma FirstPushSplits(ids: IdParsers, codec: VideoCodec, skipped: seq<AccessUnit>, kf: AccessUnit)
    requires codec != Av1 && OneCodec(skipped, codec) && kf.codec == codec
    ensures var params := Remembered(ids, [], AllNals(skipped));
            var push := Split(FirstPush(ids, params, kf), codec);
            if Prefixed(ids, params, Nals(kf)).None? then push == Nals(kf)
            else Backed(ids, codec, AllSets(ids, params, Nals(kf)))
                 && (push == RewrittenUnits(ids, codec, params, Nals(kf)) <==> !SpellsCode(kf.raw))
  {
    var params := Remembered(ids, [], AllNals(skipped));
    if Prefixed(ids, params, Nals(kf)).Some? {
      Kept(ids, codec, skipped);
      SplitSound(ids, kf.raw, codec);
      RewrittenSplits(ids, codec, params, Nals(kf));
      SplitWritable(kf.raw, codec);
    }
  }

  /** The sets a decoder did not receive but finds all the same in the first push. */
  ghost function SpilledIn(ids: IdParsers, params: seq<Entry>, kf: AccessUnit): map<SetKey, seq<byte>> {
    if Prefixed(ids, params, Nals(kf)).None? then map[]
    else DecoderSets(ids, Spilled(AnnexB.Slices(kf.raw), kf.codec))
  }

  /** A decoder that starts at the first push holds the parameter sets of one that read the
      skipped units too, and over them whatever spilled out of a rewritten 80 00 01 unit. */
  lemma FirstPushDecodes(ids: IdParsers, codec: VideoCodec, skipped: seq<AccessUnit>, kf: AccessUnit)
    requires codec != Av1 && OneCodec(skipped, codec) && kf.codec == codec
    ensures var params := Remembered(ids, [], AllNals(skipped));
            DecoderSets(ids, Split(FirstPush(ids, params, kf), codec))
            == DecoderSets(ids, AllNals(skipped) + Nals(kf)) + SpilledIn(ids, params, kf)
  {
    hide AllNals;
    var before, us := AllNals(skipped), Nals(kf);
    var params := Remembered(ids, [], before);
    Kept(ids, codec, skipped);
    DecoderSetsConcat(ids, before, us);
    if Prefixed(ids, params, us).Some? {
      SplitSound(ids, kf.raw, codec);
      RewrittenDecodes(ids, codec, params, us);
      SpilledBehindLead(ids, kf.raw, codec);
    } else {
      NothingLacking(ids, params, us);
      MergeEmpty(DecoderSets(ids, us));
    }
  }

  lemma RewrittenDecodes(ids: IdParsers, codec: VideoCodec, params: seq<Entry>, us: seq<NalUnit>)
    requires codec != Av1 && Sorted(params) && Backed(ids, codec, params) && Sound(ids, us, codec)
    requires Prefixed(ids, params, us).Some?
    ensures DecoderSets(ids, Split(Prefixed(ids, params, us).value, codec))
         == ToMap(params) + DecoderSets(ids, us) + DecoderSets(ids, Rereads(NonSets(ids, us[Lead(us)..]), codec))
  {
    AllSetsKept(ids, codec, params, us);
    var all, lead := AllSets(ids, params, us), Lead(us);
    var sets, rest := Behind(ids, codec, all), Rereads(NonSets(ids, us[lead..]), codec);
    RewrittenReread(ids, codec, params, us);
    DecoderSetsConcat(ids, us[..lead], sets);
    DecoderSetsConcat(ids, us[..lead] + sets, rest);
    LeadHoldsNone(ids, us);
    BehindSets(ids, codec, all);
    MergeEmpty(ToMap(all));
  }

  /** Nothing spills when no unit of the keyframe opens 80 00 01. */
  lemma {:induction false} NothingSpilled(slices: seq<seq<byte>>, codec: VideoCodec)
    requires forall k | 0 <= k < |slices| :: !Spells(slices[k])
    ensures Spilled(slices, codec) == []
  {
    if slices != [] { NothingSpilled(slices[1..], codec); }
  }

  /** The first push opens with the keyframe's delimiters, and it holds every unit of the
      keyframe that is no parameter set, once and in order, exactly when it is not rewritten or
      no unit of the keyframe opens 80 00 01. */
  lemma FirstPushKeepsPicture(ids: IdParsers, codec: VideoCodec, skipped: seq<AccessUnit>, kf: AccessUnit)
    requires codec != Av1 && OneCodec(skipped, codec) && kf.codec == codec
    ensures var params := Remembered(ids, [], AllNals(skipped));
            var push := Split(FirstPush(ids, params, kf), codec);
            && Nals(kf)[..Lead(Nals(kf))] <= push
            && (NonSets(ids, push) == NonSets(ids, Nals(kf))
                <==> Prefixed(ids, params, Nals(kf)).None? || !SpellsCode(kf.raw))
  {
    var us := Nals(kf);
    var params := Remembered(ids, [], AllNals(skipped));
    if Prefixed(ids, params, us).Some? {
      Kept(ids, codec, skipped);
      SplitSound(ids, kf.raw, codec);
      SplitWritable(kf.raw, codec);
      RewrittenPicture(ids, codec, params, us);
    }
  }

  lemma RewrittenPicture(ids: IdParsers, codec: VideoCodec, params: seq<Entry>, us: seq<NalUnit>)
    requires codec != Av1 && Sorted(params) && Backed(ids, codec, params) && Sound(ids, us, codec)
    requires Prefixed(ids, params, us).Some?
    ensures var push := Split(Prefixed(ids, params, us).value, codec);
            us[..Lead(us)] <= push && (NonSets(ids, push) == NonSets(ids, us) <==> Writable(us, codec))
  {
    AllSetsKept(ids, codec, params, us);
    RewrittenReread(ids, codec, params, us);
    var sets := Behind(ids, codec, AllSets(ids, params, us));
    BehindAreSets(ids, codec, AllSets(ids, params, us));
    RereadPicture(ids, codec, sets, us);
  }

  lemma RereadPicture(ids: IdParsers, codec: VideoCodec, sets: seq<NalUnit>, us: seq<NalUnit>)
    requires codec != Av1 && Sound(ids, us, codec) && NonSets(ids, sets) == []
    ensures var push := us[..Lead(us)] + sets + Rereads(NonSets(ids, us[Lead(us)..]), codec);
            NonSets(ids, push) == NonSets(ids, us) <==> Writable(us, codec)
  {
    hide Rereads;
    var head, tail := us[..Lead(us)], us[Lead(us)..];
    var rest := NonSets(ids, tail);
    NonSetsConcat(ids, head, sets);
    NonSetsConcat(ids, head + sets, Rereads(rest, codec));
    NonSetsConcat(ids, head, tail);
    assert us == head + tail;
    SameTail(NonSets(ids, head), NonSets(ids, Rereads(rest, codec)), rest);
    LeadWritable(ids, us, codec);
    WritableConcat(head, tail, codec);
    NonSetsWritable(ids, tail, codec);
    RereadRest(ids, tail, codec);
  }

  lemma SameTail(a: seq<NalUnit>, b: seq<NalUnit>, c: seq<NalUnit>)
    ensures a + [] + b == a + c <==> b == c
  {
    assert a + [] == a;
    if a + b == a + c { assert b == (a + b)[|a|..] && c == (a + c)[|a|..]; }
  }

  lemma RereadRest(ids: IdParsers, tail: seq<NalUnit>, codec: VideoCodec)
    requires codec != Av1 && Sound(ids, tail, codec)
    ensures var rest := NonSets(ids, tail);
            NonSets(ids, Rereads(rest, codec)) == rest <==> Writable(rest, codec)
  {
    hide Rereads, Weight;
    var rest := NonSets(ids, tail);
    NonSetsMembers(ids, tail);
    RereadsWeight(rest, codec);
    NonSetsLighter(ids, Rereads(rest, codec));
    if Writable(rest, codec) {
      RereadsWhole(rest, codec);
      NonSetsIdempotent(ids, tail);
    }
  }

  lemma {:induction false} NonSetsLighter(ids: IdParsers, us: seq<NalUnit>)
    ensures Weight(NonSets(ids, us)) <= Weight(us)
  {
    if us != [] {
      NonSetsLighter(ids, us[1..]);
      if SetKeyOf(ids, us[0]) == None { assert NonSets(ids, us)[1..] == NonSets(ids, us[1..]); }
    }
  }

  /** The keyframe is pushed as it came only when it carries every kept set itself. */
  lemma NothingLacking(ids: IdParsers, params: seq<Entry>, us: seq<NalUnit>)
    requires Sorted(params) && Prefixed(ids, params, us) == None
    ensures ToMap(params) + DecoderSets(ids, us) == DecoderSets(ids, us)
  {
    hide DecoderSets, OwnKeys;
    RetainMap(params, OwnKeys(ids, us));
    OwnKeysAreDecoderKeys(ids, us);
    assert ToMap(params) - DecoderSets(ids, us).Keys == map[];
    MergeOverwrites(ToMap(params), DecoderSets(ids, us));
  }

  /** Over every run with one codec on the selected PID: after the first push a decoder holds
      exactly the parameter sets of one that read all of the PID's units up to it, if that
      keyframe is pushed as it came or none of its units opens 80 00 01. In the one case left
      it holds what spilled out over them. */
  lemma RunPreservesDecoderState(ids: IdParsers, units: seq<AccessUnit>, codec: VideoCodec)
    requires codec != Av1 && Selected(units).Some? && OneCodec(Mine(units, Selected(units).value), codec)
    requires FirstKey(Mine(units, Selected(units).value)) < |Mine(units, Selected(units).value)|
    ensures var mine := Mine(units, Selected(units).value);
            var f := FirstKey(mine);
            var params := Remembered(ids, [], AllNals(mine[..f]));
            var pushed, all := Pushed(ids, Fresh(), units), DecoderSets(ids, AllNals(mine[..f + 1]));
            && |pushed| == |mine| - f
            && var held := DecoderSets(ids, Split(pushed[0], codec));
            && held == all + SpilledIn(ids, params, mine[f])
            && (Prefixed(ids, params, Nals(mine[f])).None? || !SpellsCode(mine[f].raw) ==> held == all)
  {
    var mine := Mine(units, Selected(units).value);
    var f := FirstKey(mine);
    FirstOfRun(ids, units, mine, f);
    PrefixDecodes(ids, codec, mine, f);
  }

  lemma FirstOfRun(ids: IdParsers, units: seq<AccessUnit>, mine: seq<AccessUnit>, f: nat)
    requires Selected(units).Some? && mine == Mine(units, Selected(units).value) && f == FirstKey(mine) < |mine|
    ensures |Pushed(ids, Fresh(), units)| == |mine| - f
    ensures Pushed(ids, Fresh(), units)[0] == FirstPush(ids, Remembered(ids, [], AllNals(mine[..f])), mine[f])
  {
    hide *;
    RunExact(ids, units);
  }

  lemma PrefixDecodes(ids: IdParsers, codec: VideoCodec, mine: seq<AccessUnit>, f: nat)
    requires codec != Av1 && OneCodec(mine, codec) && f < |mine|
    ensures var params := Remembered(ids, [], AllNals(mine[..f]));
            var held := DecoderSets(ids, Split(FirstPush(ids, params, mine[f]), codec));
            var all := DecoderSets(ids, AllNals(mine[..f + 1]));
            && held == all + SpilledIn(ids, params, mine[f])
            && (Prefixed(ids, params, Nals(mine[f])).None? || !SpellsCode(mine[f].raw) ==> held == all)
  {
    hide DecoderSets, Remembered, FirstPush, Split, Prefixed, AllNals;
    assert mine[..f + 1] == mine[..f] + [mine[f]];
    assert mine[f] in mine && forall u | u in mine[..f] :: u in mine;
    FirstPushDecodes(ids, codec, mine[..f], mine[f]);
    AllNalsSnoc(mine[..f], mine[f]);
    SpilledNone(ids, Remembered(ids, [], AllNals(mine[..f])), mine[f]);
    MergeEmpty(DecoderSets(ids, AllNals(mine[..f + 1])));
  }

  lemma SpilledNone(ids: IdParsers, params: seq<Entry>, kf: AccessUnit)
    ensures Prefixed(ids, params, Nals(kf)).None? || !SpellsCode(kf.raw) ==> SpilledIn(ids, params, kf) == map[]
  {
    hide Prefixed;
    if !SpellsCode(kf.raw) { NothingSpilled(AnnexB.Slices(kf.raw), kf.codec); }
  }

  lemma AssocNals(a: seq<NalUnit>, b: seq<NalUnit>, c: seq<NalUnit>)
    ensures a + (b + c) == a + b + c && a + [] == a && [] + a == a
  {
  }

  lemma AllNalsCons(u: AccessUnit, units: seq<AccessUnit>)
    ensures AllNals([u] + units) == Nals(u) + AllNals(units)
  {
    assert ([u] + units)[1..] == units;
  }

  lemma {:induction false} AllNalsSnoc(units: seq<AccessUnit>, u: AccessUnit)
    ensures AllNals(units + [u]) == AllNals(units) + Nals(u)
  {
    if units == [] {
      assert units + [u] == [u] + [];
      AllNalsCons(u, []);
      AssocNals(Nals(u), [], []);
    } else {
      var first, rest := units[0], units[1..];
      AllNalsSnoc(rest, u);
      assert units == [first] + rest && units + [u] == [first] + (rest + [u]);
      AllNalsCons(first, rest);
      AllNalsCons(first, rest + [u]);
      AssocNals(Nals(first), AllNals(rest), Nals(u));
    }
  }
}
