/** The source fixups of the librist build (`apply_source_fixups`): each replaces a text that
    must match exactly once, in table order, and none may erase an earlier one. */
module SourceFixups {
  import opened Bytes

  type Text = seq<byte>

  datatype Fixup = Fixup(name: string, file: seq<string>, before: Text, after: Text)

  datatype Panic = AlreadyFixed(name: string) | Matched(name: string, n: nat) | Overwritten(name: string)
                 | Missing(file: seq<string>) | StatusCheck(file: seq<string>)

  datatype Outcome<+T> = Ok(value: T) | Failed(panic: Panic)

  predicate MatchAt(text: Text, pat: Text, i: nat) {
    i + |pat| <= |text| && text[i..i + |pat|] == pat
  }

  /** The first match at or after `i` (`find`). */
  function FirstMatch(text: Text, pat: Text, i: nat): (r: Option<nat>)
    ensures r.Some? ==> i <= r.value && MatchAt(text, pat, r.value)
    ensures forall k | i <= k && (r.None? || k < r.value) :: !MatchAt(text, pat, k)
    decreases |text| - i
  {
    if MatchAt(text, pat, i) then Some(i)
    else if i >= |text| then None
    else FirstMatch(text, pat, i + 1)
  }

  predicate Contains(text: Text, pat: Text) { FirstMatch(text, pat, 0).Some? }

  /** Matches found left to right, each after the end of the last (`matches().count()`). */
  function CountFrom(text: Text, pat: Text, i: nat): (n: nat)
    requires pat != []
    decreases |text| - i
  {
    match FirstMatch(text, pat, i)
    case None => 0
    case Some(k) => 1 + CountFrom(text, pat, k + |pat|)
  }

  /** The text with its first match replaced (`replacen(.., 1)`). */
  function Replaced(text: Text, pat: Text, with: Text): (r: Text)
    requires Contains(text, pat)
  {
    var k := FirstMatch(text, pat, 0).value;
    text[..k] + with + text[k + |pat|..]
  }

  /** CRLF line ends become LF. */
  function Lf(text: Text): (r: Text)
  {
    if |text| < 2 then text
    else if text[0] == 13 && text[1] == 10 then [10] + Lf(text[2..])
    else [text[0]] + Lf(text[1..])
  }

  function Fix(text: Text, f: Fixup): (r: Outcome<Text>)
    requires f.before != []
  {
    var n := CountFrom(text, f.before, 0);
    if n == 1 then Ok(Replaced(text, f.before, f.after))
    else if n == 0 && Contains(text, f.after) then Failed(AlreadyFixed(f.name))
    else Failed(Matched(f.name, n))
  }

  predicate Usable(fs: seq<Fixup>) { forall f | f in fs :: f.before != [] }

  function FixAll(text: Text, fs: seq<Fixup>): (r: Outcome<Text>)
    requires Usable(fs)
    decreases |fs|
  {
    if fs == [] then Ok(text)
    else
      match Fix(text, fs[0])
      case Failed(p) => Failed(p)
      case Ok(t) => FixAll(t, fs[1..])
  }

  /** The first fixup whose new text is gone from `text`. */
  function Erased(text: Text, fs: seq<Fixup>): (r: Option<string>)
    ensures r.None? <==> forall f | f in fs :: Contains(text, f.after)
  {
    if fs == [] then None
    else if !Contains(text, fs[0].after) then Some(fs[0].name)
    else Erased(text, fs[1..])
  }

  /** One patched file: the fixups, the check that none was erased, the status check. */
  function Patched(text: Text, file: seq<string>, fs: seq<Fixup>, statusOk: (seq<string>, Text) -> bool)
    : (r: Outcome<Text>)
    requires Usable(fs)
    ensures r.Ok? ==> forall f | f in fs :: Contains(r.value, f.after)
  {
    match FixAll(Lf(text), fs)
    case Failed(p) => Failed(p)
    case Ok(t) =>
      var erased := Erased(t, fs);
      if erased.Some? then Failed(Overwritten(erased.value))
      else if !statusOk(file, t) then Failed(StatusCheck(file))
      else Ok(t)
  }

  /** The loop over one file's fixups. */
  method PatchFile(source: Text, file: seq<string>, fs: seq<Fixup>, statusOk: (seq<string>, Text) -> bool)
    returns (r: Outcome<Text>)
    requires Usable(fs)
    ensures r == Patched(source, file, fs, statusOk)
  {
    var text := Lf(source);
    for i := 0 to |fs|
      invariant FixAll(text, fs[i..]) == FixAll(Lf(source), fs)
    {
      assert fs[i..][0] == fs[i] && fs[i..][1..] == fs[i + 1..];
      var step := Fix(text, fs[i]);
      match step {
        case Failed(p) => return Failed(p);
        case Ok(t) => text := t;
      }
    }
    assert fs[|fs|..] == [];
    for i := 0 to |fs|
      invariant Erased(text, fs) == Erased(text, fs[i..])
    {
      assert fs[i..][0] == fs[i] && fs[i..][1..] == fs[i + 1..];
      if !Contains(text, fs[i].after) { return Failed(Overwritten(fs[i].name)); }
    }
    if !statusOk(file, text) { return Failed(StatusCheck(file)); }
    r := Ok(text);
  }

  // ---- what "exactly once" means -----------------------------------------------------

  lemma CountNone(text: Text, pat: Text, i: nat)
    requires pat != []
    ensures CountFrom(text, pat, i) == 0 <==> forall k | i <= k :: !MatchAt(text, pat, k)
  {}

  /** A first match, and none that starts after it ends. */
  ghost predicate OnlyAt(text: Text, pat: Text, k: nat) {
    && MatchAt(text, pat, k)
    && (forall j: nat | j < k :: !MatchAt(text, pat, j))
    && (forall j: nat | k + |pat| <= j :: !MatchAt(text, pat, j))
  }

  /** A fixup applies exactly when its old text has a first match and none that starts after
      that match ends. */
  lemma CountOneExact(text: Text, pat: Text)
    requires pat != []
    ensures CountFrom(text, pat, 0) == 1 <==> exists k: nat :: OnlyAt(text, pat, k)
  {
    var first := FirstMatch(text, pat, 0);
    if first.Some? {
      CountNone(text, pat, first.value + |pat|);
      assert CountFrom(text, pat, 0) == 1 ==> OnlyAt(text, pat, first.value);
      forall k: nat | OnlyAt(text, pat, k) ensures k == first.value {
        assert !(first.value < k);
      }
    }
  }

  /** No proper suffix of the text is also a prefix of it. */
  ghost predicate Borderless(pat: Text) {
    forall d | 0 < d < |pat| :: pat[d..] != pat[..|pat| - d]
  }

  /** For a text that cannot overlap itself that is the one place it occurs at. */
  lemma OnceWhenBorderless(text: Text, pat: Text, j: nat, k: nat)
    requires pat != [] && Borderless(pat) && CountFrom(text, pat, 0) == 1
    requires MatchAt(text, pat, j) && MatchAt(text, pat, k) && j <= k
    ensures j == k
  {
    CountOneExact(text, pat);
    var i: nat :| OnlyAt(text, pat, i);
    if i < j { OverlapIsBorder(text, pat, i, j); }
    if i < k { OverlapIsBorder(text, pat, i, k); }
  }

  /** Two matches that overlap show a border. */
  lemma OverlapIsBorder(text: Text, pat: Text, i: nat, j: nat)
    requires MatchAt(text, pat, i) && MatchAt(text, pat, j) && i < j < i + |pat|
    ensures pat[j - i..] == pat[..|pat| - (j - i)]
  {
    var d := j - i;
    assert pat[d..] == text[j..i + |pat|];
    assert pat[..|pat| - d] == text[j..i + |pat|];
  }

  /** The count is of matches that do not overlap: "aa" is found once in "aaa", where it
      occurs twice. */
  lemma OverlappingMatchesCountOnce()
    ensures var text: Text := [97, 97, 97];
            CountFrom(text, [97, 97], 0) == 1 && MatchAt(text, [97, 97], 0) && MatchAt(text, [97, 97], 1)
  {
    var text: Text := [97, 97, 97];
    assert MatchAt(text, [97, 97], 0) && MatchAt(text, [97, 97], 1);
    assert FirstMatch(text, [97, 97], 0) == Some(0);
    assert FirstMatch(text, [97, 97], 2) == None;
  }

  // ---- a fix that upstream already carries -------------------------------------------

  /** A replaced text holds the new text where the old one was. */
  lemma ReplacedContains(text: Text, f: Fixup)
    requires f.before != [] && Contains(text, f.before)
    ensures MatchAt(Replaced(text, f.before, f.after), f.after, FirstMatch(text, f.before, 0).value)
    ensures Contains(Replaced(text, f.before, f.after), f.after)
  {
    var k := FirstMatch(text, f.before, 0).value;
    var r := Replaced(text, f.before, f.after);
    assert r[k..k + |f.after|] == f.after;
    assert MatchAt(r, f.after, k);
    assert FirstMatch(r, f.after, 0).Some?;
  }

  /** When upstream already carries a fix, the build stops with that message exactly when
      the fixed text no longer matches the old one; otherwise it patches a second time if
      the old text still matches once. */
  lemma UpstreamFix(text: Text, f: Fixup)
    requires f.before != [] && CountFrom(text, f.before, 0) == 1
    ensures var fixed := Replaced(text, f.before, f.after);
            && Fix(text, f) == Ok(fixed)
            && (Fix(fixed, f) == Failed(AlreadyFixed(f.name)) <==> !Contains(fixed, f.before))
            && (Fix(fixed, f).Ok? <==> exists k: nat :: OnlyAt(fixed, f.before, k))
            && (Fix(fixed, f).Ok? <==> CountFrom(fixed, f.before, 0) == 1)
  {
    var fixed := Replaced(text, f.before, f.after);
    ReplacedContains(text, f);
    CountNone(fixed, f.before, 0);
    CountOneExact(fixed, f.before);
  }

  /** The same for the build of a file with that one fixup whose lines end in LF: what is
      already fixed is staged patched twice exactly when the old text still occurs so and the
      status check lets the result pass. */
  lemma UpstreamPatched(text: Text, f: Fixup, statusOk: (seq<string>, Text) -> bool)
    requires f.before != [] && CountFrom(text, f.before, 0) == 1
    requires Lf(Replaced(text, f.before, f.after)) == Replaced(text, f.before, f.after)
    ensures var fixed := Replaced(text, f.before, f.after);
            var built := Patched(fixed, f.file, [f], statusOk);
            if CountFrom(fixed, f.before, 0) == 1 then
              var twice := Replaced(fixed, f.before, f.after);
              built == if statusOk(f.file, twice) then Ok(twice) else Failed(StatusCheck(f.file))
            else built.Failed? && (built == Failed(AlreadyFixed(f.name)) <==> !Contains(fixed, f.before))
  {
    hide Replaced, CountFrom, Contains;
    OnlyAtFirst(text, f.before);
    var fixed := Replaced(text, f.before, f.after);
    UpstreamFix(text, f);
    OneFixup(fixed, f);
    if CountFrom(fixed, f.before, 0) == 1 {
      OnlyAtFirst(fixed, f.before);
      ReplacedContains(fixed, f);
      NoneErased(Replaced(fixed, f.before, f.after), f);
    }
  }

  lemma OneFixup(text: Text, f: Fixup)
    requires f.before != []
    ensures FixAll(text, [f]) == Fix(text, f)
  {
    hide Fix;
    var fs := [f];
    assert fs[1..] == [];
  }

  lemma NoneErased(text: Text, f: Fixup)
    requires Contains(text, f.after)
    ensures Erased(text, [f]) == None
  {
  }

  /** The last `s` bytes of the old text open the new one. */
  predicate Enters(b: Text, a: Text, s: nat) {
    0 < s < |b| && s <= |a| && b[|b| - s..] == a[..s]
  }

  /** The first `s` bytes of the old text end the new one. */
  predicate Leaves(b: Text, a: Text, s: nat) {
    0 < s < |b| && s <= |a| && b[..s] == a[|a| - s..]
  }

  /** Put in place of the old text, the new one makes no match of the old text that reaches
      across either of its ends, whatever stands around it. */
  ghost predicate Clear(f: Fixup) {
    && (forall s: nat :: !Enters(f.before, f.after, s) && !Leaves(f.before, f.after, s))
    && (forall d | 0 < d && d + |f.after| < |f.before| :: !MatchAt(f.before, f.after, d))
  }

  lemma MatchInside(text: Text, pat: Text, p: nat, q: nat, s: nat)
    requires MatchAt(text, pat, p) && p <= q <= s <= p + |pat|
    ensures text[q..s] == pat[q - p..s - p]
  {
    var here, part := text[q..s], pat[q - p..s - p];
    forall i | 0 <= i < |here| ensures here[i] == part[i] {
      assert text[p..p + |pat|][q - p + i] == text[q + i];
    }
  }

  lemma MatchEnters(l: Text, a: Text, r: Text, b: Text, p: nat)
    requires MatchAt(l + a + r, b, p) && p < |l| < p + |b| <= |l| + |a|
    ensures Enters(b, a, p + |b| - |l|)
  {
    var k, e := |l|, p + |b|;
    MatchInside(l + a + r, b, p, k, e);
    CutMiddle(l, a, r, k, e);
    assert b[|b| - (e - k)..] == b[k - p..e - p] && a[..e - k] == a[k - k..e - k];
  }

  lemma MatchLeaves(l: Text, a: Text, r: Text, b: Text, p: nat)
    requires MatchAt(l + a + r, b, p) && |l| <= p < |l| + |a| < p + |b|
    ensures Leaves(b, a, |l| + |a| - p)
  {
    var k, e := |l|, |l| + |a|;
    MatchInside(l + a + r, b, p, p, e);
    CutMiddle(l, a, r, p, e);
    assert b[..e - p] == b[p - p..e - p] && a[|a| - (e - p)..] == a[p - k..e - k];
  }

  lemma MatchSpans(l: Text, a: Text, r: Text, b: Text, p: nat)
    requires MatchAt(l + a + r, b, p) && p < |l| && |l| + |a| < p + |b|
    ensures MatchAt(b, a, |l| - p)
  {
    var k, e := |l|, |l| + |a|;
    MatchInside(l + a + r, b, p, k, e);
    CutMiddle(l, a, r, k, e);
    assert a[k - k..e - k] == a;
  }

  /** The three ways a match can reach across an end. */
  lemma NoStraddle(l: Text, f: Fixup, r: Text, p: nat)
    requires MatchAt(l + f.after + r, f.before, p)
    ensures Clear(f) ==>
              p + |f.before| <= |l| || |l| + |f.after| <= p || (|l| <= p && p + |f.before| <= |l| + |f.after|)
  {
    hide MatchAt, Enters, Leaves;
    var b, a, k := f.before, f.after, |l|;
    if p < k < p + |b| <= k + |a| {
      MatchEnters(l, a, r, b, p);
    } else if k <= p < k + |a| < p + |b| {
      MatchLeaves(l, a, r, b, p);
    } else if p < k && k + |a| < p + |b| {
      MatchSpans(l, a, r, b, p);
    }
  }

  /** A match outside the new text was there before. */
  lemma MatchOutside(l: Text, f: Fixup, r: Text, p: nat)
    requires MatchAt(l + f.after + r, f.before, p)
    ensures p + |f.before| <= |l| ==> MatchAt(l + f.before + r, f.before, p)
    ensures |l| + |f.after| <= p ==> MatchAt(l + f.before + r, f.before, p - |f.after| + |f.before|)
  {
    hide MatchAt;
    Parts(l, f.after, r, f.before, p);
    Parts(l, f.before, r, f.before, p);
    if |l| + |f.after| <= p { Parts(l, f.before, r, f.before, p - |f.after| + |f.before|); }
  }

  /** So the old text matches in the fixed text just where it matches inside the new one. */
  lemma MatchesInNew(text: Text, f: Fixup, k: nat, p: nat)
    requires f.before != [] && Clear(f) && OnlyAt(text, f.before, k)
    ensures var fixed := text[..k] + f.after + text[k + |f.before|..];
            MatchAt(fixed, f.before, p) <==> k <= p && MatchAt(f.after, f.before, p - k)
  {
    MatchEnds(text, f.before, k);
    var l, r := text[..k], text[k + |f.before|..];
    assert text == l + f.before + r;
    hide MatchAt, Clear;
    Parts(l, f.after, r, f.before, p);
    if MatchAt(l + f.after + r, f.before, p) {
      NoStraddle(l, f, r, p);
      MatchOutside(l, f, r, p);
    }
    if k <= p && MatchAt(f.after, f.before, p - k) {
      MatchEnds(f.after, f.before, p - k);
    }
  }

  /** A match inside one of three parts of a text. */
  lemma Parts(l: Text, a: Text, r: Text, pat: Text, p: nat)
    ensures p + |pat| <= |l| ==> (MatchAt(l + a + r, pat, p) <==> MatchAt(l, pat, p))
    ensures |l| <= p && p + |pat| <= |l| + |a| ==> (MatchAt(l + a + r, pat, p) <==> MatchAt(a, pat, p - |l|))
    ensures |l| + |a| <= p ==> (MatchAt(l + a + r, pat, p) <==> MatchAt(r, pat, p - |l| - |a|))
  {
    hide MatchAt;
    var e := p + |pat|;
    if e <= |l| { LeftPart(l, a, r, pat, p); }
    if |l| <= p && e <= |l| + |a| { MiddlePart(l, a, r, pat, p); }
    if |l| + |a| <= p { RightPart(l, a, r, pat, p); }
  }

  lemma LeftPart(l: Text, a: Text, r: Text, pat: Text, p: nat)
    requires p + |pat| <= |l|
    ensures MatchAt(l + a + r, pat, p) <==> MatchAt(l, pat, p)
  {
    CutLeft(l, a, r, p, p + |pat|);
  }

  lemma MiddlePart(l: Text, a: Text, r: Text, pat: Text, p: nat)
    requires |l| <= p && p + |pat| <= |l| + |a|
    ensures MatchAt(l + a + r, pat, p) <==> MatchAt(a, pat, p - |l|)
  {
    CutMiddle(l, a, r, p, p + |pat|);
  }

  lemma RightPart(l: Text, a: Text, r: Text, pat: Text, p: nat)
    requires |l| + |a| <= p
    ensures MatchAt(l + a + r, pat, p) <==> MatchAt(r, pat, p - |l| - |a|)
  {
    if p + |pat| <= |l| + |a| + |r| { CutRight(l, a, r, p, p + |pat|); }
  }

  lemma CutLeft(l: Text, a: Text, r: Text, p: nat, e: nat)
    requires p <= e <= |l|
    ensures (l + a + r)[p..e] == l[p..e]
  {
    var x, y := (l + a + r)[p..e], l[p..e];
    assert |x| == |y|;
    forall i | 0 <= i < |x| ensures x[i] == y[i] { assert x[i] == (l + a + r)[p + i] == l[p + i]; }
  }

  lemma CutMiddle(l: Text, a: Text, r: Text, p: nat, e: nat)
    requires |l| <= p <= e <= |l| + |a|
    ensures (l + a + r)[p..e] == a[p - |l|..e - |l|]
  {
    var x, y := (l + a + r)[p..e], a[p - |l|..e - |l|];
    assert |x| == |y|;
    forall i | 0 <= i < |x| ensures x[i] == y[i] { assert x[i] == (l + a + r)[p + i] == a[p - |l| + i]; }
  }

  lemma CutRight(l: Text, a: Text, r: Text, p: nat, e: nat)
    requires |l| + |a| <= p <= e <= |l| + |a| + |r|
    ensures (l + a + r)[p..e] == r[p - |l| - |a|..e - |l| - |a|]
  {
    var x, y := (l + a + r)[p..e], r[p - |l| - |a|..e - |l| - |a|];
    assert |x| == |y|;
    forall i | 0 <= i < |x| ensures x[i] == y[i] { assert x[i] == (l + a + r)[p + i] == r[p - |l| - |a| + i]; }
  }

  /** Texts that match alike, one shifted by `k`, count alike. */
  lemma {:induction false} CountShift(fixed: Text, inner: Text, pat: Text, k: nat, i: nat)
    requires pat != [] && forall p: nat :: MatchAt(fixed, pat, p) <==> k <= p && MatchAt(inner, pat, p - k)
    ensures CountFrom(fixed, pat, k + i) == CountFrom(inner, pat, i)
    decreases |inner| - i
  {
    hide MatchAt;
    var here, there := FirstMatch(fixed, pat, k + i), FirstMatch(inner, pat, i);
    if there.Some? {
      assert MatchAt(fixed, pat, k + there.value);
      MatchEnds(inner, pat, there.value);
      assert here.Some? && here.value <= k + there.value;
      assert MatchAt(inner, pat, here.value - k);
      assert here.value == k + there.value;
      CountShift(fixed, inner, pat, k, there.value + |pat|);
    }
  }

  lemma MatchEnds(text: Text, pat: Text, p: nat)
    requires MatchAt(text, pat, p)
    ensures p + |pat| <= |text|
  {
  }

  lemma SkipUnmatched(text: Text, pat: Text, k: nat)
    requires pat != [] && forall p: nat | p < k :: !MatchAt(text, pat, p)
    ensures CountFrom(text, pat, 0) == CountFrom(text, pat, k)
  {
    hide MatchAt;
    var a, b := FirstMatch(text, pat, 0), FirstMatch(text, pat, k);
    if a.Some? {
      assert a.value >= k;
      assert b.Some? && b.value <= a.value;
    }
    assert a == b;
  }

  /** For a fixup whose new text is clear of such matches the question is one about the fixup
      alone: its result is reported as already fixed exactly when the new text does not
      contain the old one, and patched again exactly when it does once. */
  lemma UpstreamFixClear(text: Text, f: Fixup)
    requires f.before != [] && CountFrom(text, f.before, 0) == 1 && Clear(f)
    ensures var fixed := Replaced(text, f.before, f.after);
            && CountFrom(fixed, f.before, 0) == CountFrom(f.after, f.before, 0)
            && (Fix(fixed, f) == Failed(AlreadyFixed(f.name)) <==> !Contains(f.after, f.before))
            && (Fix(fixed, f).Ok? <==> CountFrom(f.after, f.before, 0) == 1)
  {
    hide *;
    OnlyAtFirst(text, f.before);
    ClearCounts(text, f);
    ContainsCounted(Replaced(text, f.before, f.after), f.before);
    ContainsCounted(f.after, f.before);
    UpstreamFix(text, f);
  }

  lemma ClearCounts(text: Text, f: Fixup)
    requires f.before != [] && CountFrom(text, f.before, 0) == 1 && Clear(f) && Contains(text, f.before)
    ensures CountFrom(Replaced(text, f.before, f.after), f.before, 0) == CountFrom(f.after, f.before, 0)
  {
    hide MatchAt, Clear, CountFrom, OnlyAt;
    var fixed, k := Replaced(text, f.before, f.after), FirstMatch(text, f.before, 0).value;
    OnlyAtFirst(text, f.before);
    forall p: nat ensures MatchAt(fixed, f.before, p) <==> k <= p && MatchAt(f.after, f.before, p - k) {
      MatchesInNew(text, f, k, p);
    }
    CountShift(fixed, f.after, f.before, k, 0);
    SkipUnmatched(fixed, f.before, k);
  }

  lemma OnlyAtFirst(text: Text, pat: Text)
    requires pat != [] && CountFrom(text, pat, 0) == 1
    ensures Contains(text, pat) && OnlyAt(text, pat, FirstMatch(text, pat, 0).value)
  {
    CountNone(text, pat, FirstMatch(text, pat, 0).value + |pat|);
  }

  lemma ContainsCounted(text: Text, pat: Text)
    requires pat != []
    ensures Contains(text, pat) <==> CountFrom(text, pat, 0) > 0
  {
  }

  /** Without that the text around it matters: "ab" to "aba" turns "abb" into "abab", which
      matches twice and is refused, though "aba" holds "ab" once. */
  lemma StraddleWitness(f: Fixup)
    requires f.before == [97, 98] && f.after == [97, 98, 97]
    ensures CountFrom(f.after, f.before, 0) == 1 && Fix([97, 98, 98], f) == Ok([97, 98, 97, 98])
    ensures Fix([97, 98, 97, 98], f) == Failed(Matched(f.name, 2)) && !Clear(f)
  {
    var b, a: Text, text: Text, fixed: Text := f.before, f.after, [97, 98, 98], [97, 98, 97, 98];
    assert MatchAt(a, b, 0) && FirstMatch(a, b, 2) == None;
    assert MatchAt(text, b, 0) && text[2..] == [98] && FirstMatch(text, b, 2) == None;
    assert Replaced(text, b, a) == fixed;
    assert MatchAt(fixed, b, 0) && fixed[2..4] == b && MatchAt(fixed, b, 2) && FirstMatch(fixed, b, 4) == None;
    assert CountFrom(fixed, b, 4) == 0 && CountFrom(fixed, b, 2) == 1;
    assert b[..1] == a[3 - 1..] && Leaves(b, a, 1);
  }

  /** At the level of one fixup: one that keeps its old text and adds to it, as the rekey
      budget's do, patches its own result again. "a" to "ab" turns "ab" into "abb". */
  lemma DoublePatchWitness(f: Fixup)
    requires f.before == [97] && f.after == [97, 98]
    ensures Fix([97, 98], f) == Ok([97, 98, 98])
  {
    var text: Text := [97, 98];
    assert MatchAt(text, [97], 0);
    assert FirstMatch(text, f.before, 0) == Some(0);
    assert text[1..2][0] == 98 && !MatchAt(text, [97], 1);
    assert FirstMatch(text, f.before, 2) == None;
    assert FirstMatch(text, f.before, 1) == None;
    assert CountFrom(text, f.before, 0) == 1;
    assert Replaced(text, f.before, f.after) == [97, 98, 98];
  }
}
