/**
 * The two tag searches: `/<\s*body[^>]*>/im` (an opening `body` tag) and
 * `/<\s*\/\s*head[^>]*>/im` (a closing `head` tag). Both are written as
 * left-to-right scanners and proved against a declarative reading of the
 * pattern: the scanner returns the leftmost match, and no earlier start
 * index begins one. As with the regular expressions, `<bodyguard>` counts
 * as a body tag and `[^>]` runs across line breaks.
 */
module Tags {
  import opened Wrappers
  import opened Text

  /** `<\s*name[^>]*>` when `closing` is false, `<\s*\/\s*name[^>]*>` when it is true. */
  datatype TagPattern = TagPattern(closing: bool, name: string)

  const BodyOpen: TagPattern := TagPattern(false, "body")
  const HeadClose: TagPattern := TagPattern(true, "head")

  /** A match `s[start..end]`. */
  datatype Match = Match(start: nat, end: nat)

  /** A non-empty lower-case ASCII tag name, so that `/i` folds exactly the ASCII letters. */
  predicate ValidPattern(t: TagPattern) {
    |t.name| > 0 && forall k :: 0 <= k < |t.name| ==> 'a' <= t.name[k] <= 'z'
  }

  // ---------------------------------------------------------------------------
  // The pattern, read declaratively

  ghost predicate Spaces(s: string, i: int, j: int) {
    0 <= i <= j <= |s| && forall k :: i <= k < j ==> IsSpace(s[k])
  }

  ghost predicate NoGt(s: string, i: int, j: int) {
    0 <= i <= j <= |s| && forall k :: i <= k < j ==> s[k] != '>'
  }

  /** `s[i + 1..j]` matches `\s*`, or `\s*\/\s*` for a closing tag. */
  ghost predicate LeadIn(t: TagPattern, s: string, i: int, j: int) {
    if t.closing then
      exists m :: Spaces(s, i + 1, m) && Spaces(s, m + 1, j) && s[m] == '/'
    else
      Spaces(s, i + 1, j)
  }

  /** `s[i..e]` matches the whole pattern. */
  ghost predicate TagAt(t: TagPattern, s: string, i: int, e: int) {
    0 <= i < |s| && s[i] == '<' &&
    exists j :: LeadIn(t, s, i, j) && 0 <= j && NameAt(s, j, t.name) &&
                NoGt(s, j + |t.name|, e - 1) && e - 1 < |s| && s[e - 1] == '>'
  }

  /** `s[i..e]` is the match the regular expression reports: no earlier index starts one. */
  ghost predicate Leftmost(t: TagPattern, s: string, i: int, e: int) {
    TagAt(t, s, i, e) && forall i', e' :: 0 <= i' < i ==> !TagAt(t, s, i', e')
  }

  // ---------------------------------------------------------------------------
  // The scanner

  /** Past the `<` at `i`: the index where the tag name must begin, if the lead-in matches. */
  function LeadInEnd(t: TagPattern, s: string, i: nat): Option<nat>
    requires i < |s|
  {
    var j := SkipSpace(s, i + 1);
    if !t.closing then Some(j)
    else if j < |s| && s[j] == '/' then Some(SkipSpace(s, j + 1))
    else None
  }

  /** The end of the match that starts at `i`, if one does. */
  function MatchEndAt(t: TagPattern, s: string, i: nat): Option<nat>
    requires i < |s|
  {
    if s[i] != '<' then None
    else match LeadInEnd(t, s, i)
      case None => None
      case Some(j) => NameEnd(t, s, j)
  }

  /** From where the name must begin: the end of the tag, just past its `>`, if the name is there. */
  function NameEnd(t: TagPattern, s: string, j: nat): Option<nat> {
    if NameAt(s, j, t.name) then
      match FindGt(s, j + |t.name|)
      case None => None
      case Some(g) => Some(g + 1)
    else None
  }

  lemma MatchEndAtSound(t: TagPattern, s: string, i: nat)
    requires i < |s| && MatchEndAt(t, s, i).Some?
    ensures TagAt(t, s, i, MatchEndAt(t, s, i).value)
  {
    var j := LeadInEnd(t, s, i).value;
    if t.closing {
      var m := SkipSpace(s, i + 1);
      assert Spaces(s, i + 1, m) && Spaces(s, m + 1, j) && s[m] == '/';
    }
    assert LeadIn(t, s, i, j);
  }

  /** Whatever position starts a match, the scanner finds that same match there. */
  lemma MatchEndAtComplete(t: TagPattern, s: string, i: nat, e: int)
    requires ValidPattern(t) && TagAt(t, s, i, e)
    ensures MatchEndAt(t, s, i) == Some(e)
  {
    var j :| LeadIn(t, s, i, j) && 0 <= j && NameAt(s, j, t.name) &&
             NoGt(s, j + |t.name|, e - 1) && e - 1 < |s| && s[e - 1] == '>';
    NameStart(t, s, j);
    LeadInExact(t, s, i, j);
    NameEndExact(t, s, j, e);
  }

  /** Once the name is there, the tag ends just past the first `>` after it. */
  lemma NameEndExact(t: TagPattern, s: string, j: nat, e: int)
    requires NameAt(s, j, t.name) && NoGt(s, j + |t.name|, e - 1) && 0 <= e - 1 < |s| && s[e - 1] == '>'
    ensures NameEnd(t, s, j) == Some(e)
  {
    FindGtExact(s, j + |t.name|, e - 1);
  }

  /** A tag name begins with a letter: not whitespace, not `/`, not `>`. */
  lemma NameStart(t: TagPattern, s: string, j: nat)
    requires ValidPattern(t) && NameAt(s, j, t.name)
    ensures j < |s| && !IsSpace(s[j]) && s[j] != '/' && s[j] != '>'
  {
    assert Lower(s[j + 0]) == t.name[0];
  }

  /** The lead-in is greedy: when a non-space, non-slash character follows it, it ends there. */
  lemma LeadInExact(t: TagPattern, s: string, i: nat, j: nat)
    requires i < |s| && LeadIn(t, s, i, j) && j < |s| && !IsSpace(s[j]) && s[j] != '/'
    ensures LeadInEnd(t, s, i) == Some(j)
  {
    if t.closing {
      var m :| Spaces(s, i + 1, m) && Spaces(s, m + 1, j) && s[m] == '/';
      SkipSpaceExact(s, i + 1, m);
      assert SkipSpace(s, i + 1) == m;
      SkipSpaceExact(s, m + 1, j);
      assert SkipSpace(s, m + 1) == j;
    } else {
      SkipSpaceExact(s, i + 1, j);
    }
  }

  lemma SkipSpaceExact(s: string, k: nat, j: nat)
    requires Spaces(s, k, j) && j < |s| && !IsSpace(s[j])
    ensures SkipSpace(s, k) == j
  {
  }

  lemma FindGtExact(s: string, k: nat, g: nat)
    requires NoGt(s, k, g) && g < |s| && s[g] == '>'
    ensures FindGt(s, k) == Some(g)
  {
  }

  lemma {:induction false} NoMatchAt(t: TagPattern, s: string, i: nat)
    requires ValidPattern(t) && i < |s| && MatchEndAt(t, s, i).None?
    ensures forall e :: !TagAt(t, s, i, e)
  {
    forall e | TagAt(t, s, i, e) ensures false {
      MatchEndAtComplete(t, s, i, e);
    }
  }

  /** The regular expression's search: the first start index at or after `from` that begins a match. */
  function FirstMatch(t: TagPattern, s: string, from: nat): Option<Match>
    decreases |s| - from
  {
    if from >= |s| then None
    else match MatchEndAt(t, s, from)
      case Some(e) => Some(Match(from, e))
      case None => FirstMatch(t, s, from + 1)
  }

  /** The search returns the leftmost match at or after `from`, and finds one whenever one exists. */
  lemma {:induction false} FirstMatchLeftmost(t: TagPattern, s: string, from: nat)
    requires ValidPattern(t)
    ensures FirstMatch(t, s, from).Some? ==>
              var m := FirstMatch(t, s, from).value;
              from <= m.start && TagAt(t, s, m.start, m.end) &&
              forall i', e' :: from <= i' < m.start ==> !TagAt(t, s, i', e')
    ensures FirstMatch(t, s, from).None? ==> forall i', e' :: from <= i' ==> !TagAt(t, s, i', e')
    decreases |s| - from
  {
    if from < |s| {
      if MatchEndAt(t, s, from).Some? {
        MatchEndAtSound(t, s, from);
      } else {
        NoMatchAt(t, s, from);
        FirstMatchLeftmost(t, s, from + 1);
      }
    }
  }

  /** `body_injection_position`: the end of the first body tag, just past its `>`. */
  function BodyInjectionPosition(c: string): (r: Option<nat>)
    ensures r.Some? ==> 0 < r.value <= |c| && c[r.value - 1] == '>'
  {
    FirstMatchLeftmost(BodyOpen, c, 0);
    match FirstMatch(BodyOpen, c, 0)
    case Some(m) => Some(m.end)
    case None => None
  }

  /** `head_injection_position`: the start of the first closing head tag, its `<`. */
  function HeadInjectionPosition(c: string): (r: Option<nat>)
    ensures r.Some? ==> r.value < |c| && c[r.value] == '<'
  {
    FirstMatchLeftmost(HeadClose, c, 0);
    match FirstMatch(HeadClose, c, 0)
    case Some(m) => Some(m.start)
    case None => None
  }

  /**
   * The body offset is the end of the leftmost body tag, and there is
   * none exactly when no index starts a body tag.
   */
  lemma BodyInjectionPositionLeftmost(c: string)
    ensures BodyInjectionPosition(c).Some? ==> exists i :: Leftmost(BodyOpen, c, i, BodyInjectionPosition(c).value)
    ensures BodyInjectionPosition(c).None? <==> forall i, e :: !TagAt(BodyOpen, c, i, e)
  {
    FirstMatchLeftmost(BodyOpen, c, 0);
    if FirstMatch(BodyOpen, c, 0).Some? {
      var m := FirstMatch(BodyOpen, c, 0).value;
      assert Leftmost(BodyOpen, c, m.start, m.end);
    }
  }

  /**
   * The head offset is the start of the leftmost closing head tag, and there
   * is none exactly when no index starts a closing head tag.
   */
  lemma HeadInjectionPositionLeftmost(c: string)
    ensures HeadInjectionPosition(c).Some? ==> exists e :: Leftmost(HeadClose, c, HeadInjectionPosition(c).value, e)
    ensures HeadInjectionPosition(c).None? <==> forall i, e :: !TagAt(HeadClose, c, i, e)
  {
    FirstMatchLeftmost(HeadClose, c, 0);
    if FirstMatch(HeadClose, c, 0).Some? {
      var m := FirstMatch(HeadClose, c, 0).value;
      assert Leftmost(HeadClose, c, m.start, m.end);
    }
  }

  // ---------------------------------------------------------------------------
  // Searching again after a splice

  /**
   * Every `<` in `b` is followed, inside `b`, by a character that is neither
   * whitespace nor `/`: no closing tag can start inside `b`.
   */
  ghost predicate NoCloseTagStart(b: string) {
    forall i :: 0 <= i < |b| && b[i] == '<' ==> i + 1 < |b| && !IsSpace(b[i + 1]) && b[i + 1] != '/'
  }

  function ShiftEnd(r: Option<nat>, d: nat): Option<nat> {
    match r
    case None => None
    case Some(x) => Some(x + d)
  }

  function ShiftMatch(r: Option<Match>, d: nat): Option<Match> {
    match r
    case None => None
    case Some(m) => Some(Match(m.start + d, m.end + d))
  }

  /** A match found in text into which `d` characters were spliced at `p`: one starting after `p` moves by `d`. */
  function Relocate(r: Option<Match>, p: nat, d: nat): Option<Match> {
    match r
    case None => None
    case Some(m) => if m.start < p then r else Some(Match(m.start + d, m.end + d))
  }

  /** `s` holds `r` from index `d` to its end. */
  ghost predicate Aligned(s: string, d: nat, r: string) {
    |s| == d + |r| && forall i :: 0 <= i < |r| ==> s[d + i] == r[i]
  }

  lemma {:induction false} SkipSpaceSuffix(s: string, d: nat, r: string, k: nat)
    requires Aligned(s, d, r) && k <= |r|
    ensures SkipSpace(s, d + k) == d + SkipSpace(r, k)
    decreases |r| - k
  {
    if k < |r| {
      assert s[d + k] == r[k];
      if IsSpace(r[k]) { SkipSpaceSuffix(s, d, r, k + 1); }
    }
  }

  lemma {:induction false} FindGtSuffix(s: string, d: nat, r: string, k: nat)
    requires Aligned(s, d, r) && k <= |r|
    ensures FindGt(s, d + k) == ShiftEnd(FindGt(r, k), d)
    decreases |r| - k
  {
    if k < |r| {
      assert s[d + k] == r[k];
      if r[k] != '>' { FindGtSuffix(s, d, r, k + 1); }
    }
  }

  lemma NameAtSuffix(s: string, d: nat, r: string, j: nat, name: string)
    requires Aligned(s, d, r)
    ensures NameAt(s, d + j, name) <==> NameAt(r, j, name)
  {
    if j + |name| <= |r| {
      forall i | j <= i < j + |name| ensures s[d + i] == r[i] { }
    }
  }

  lemma LeadInEndSuffix(t: TagPattern, s: string, d: nat, r: string, k: nat)
    requires Aligned(s, d, r) && k < |r|
    ensures LeadInEnd(t, s, d + k) == ShiftEnd(LeadInEnd(t, r, k), d)
  {
    SkipSpaceSuffix(s, d, r, k + 1);
    var j := SkipSpace(r, k + 1);
    if j < |r| {
      assert s[d + j] == r[j];
      SkipSpaceSuffix(s, d, r, j + 1);
    }
  }

  /** The name test and the `>` search after it, on a text and on its suffix. */
  lemma NameEndSuffix(t: TagPattern, s: string, d: nat, r: string, j: nat)
    requires Aligned(s, d, r)
    ensures NameEnd(t, s, d + j) == ShiftEnd(NameEnd(t, r, j), d)
  {
    NameAtSuffix(s, d, r, j, t.name);
    if NameAt(r, j, t.name) {
      FindGtSuffix(s, d, r, j + |t.name|);
      assert d + (j + |t.name|) == d + j + |t.name|;
    }
  }

  /** The scanner only looks at the text from its start index on: `s` scans from `d + k` as its suffix `r` from `k`. */
  lemma MatchEndAtSuffix(t: TagPattern, s: string, d: nat, r: string, k: nat)
    requires Aligned(s, d, r) && k < |r|
    ensures MatchEndAt(t, s, d + k) == ShiftEnd(MatchEndAt(t, r, k), d)
  {
    assert s[d + k] == r[k];
    if r[k] == '<' {
      LeadInEndSuffix(t, s, d, r, k);
      var l := LeadInEnd(t, r, k);
      assert LeadInEnd(t, s, d + k) == ShiftEnd(l, d);
      if l.Some? {
        NameEndSuffix(t, s, d, r, l.value);
      }
    }
  }

  lemma {:induction false} SkipSpacePrefix(s1: string, s2: string, n: nat, k: nat)
    requires 1 <= n <= |s1| && n <= |s2| && s1[..n] == s2[..n] && s1[n - 1] == '>' && k < n
    ensures SkipSpace(s1, k) == SkipSpace(s2, k) < n
    decreases n - k
  {
    assert s1[k] == s1[..n][k] == s2[k];
    if IsSpace(s1[k]) { SkipSpacePrefix(s1, s2, n, k + 1); }
  }

  lemma {:induction false} FindGtPrefix(s1: string, s2: string, n: nat, k: nat)
    requires 1 <= n <= |s1| && n <= |s2| && s1[..n] == s2[..n] && s1[n - 1] == '>' && k < n
    ensures FindGt(s1, k) == FindGt(s2, k) && FindGt(s1, k).Some? && FindGt(s1, k).value < n
    decreases n - k
  {
    assert s1[k] == s1[..n][k] == s2[k];
    if s1[k] != '>' { FindGtPrefix(s1, s2, n, k + 1); }
  }

  /** A tag name holds no `>`. */
  lemma NameHasNoGt(t: TagPattern, s: string, j: nat)
    requires ValidPattern(t) && NameAt(s, j, t.name)
    ensures forall i :: j <= i < j + |t.name| ==> s[i] != '>'
  {
    forall i | j <= i < j + |t.name| ensures s[i] != '>' {
      assert Lower(s[j + (i - j)]) == t.name[i - j];
    }
  }

  /** A name match cannot run over the `>` at `n - 1`, so it lies inside the shared prefix. */
  lemma NameAtPrefix(t: TagPattern, s1: string, s2: string, n: nat, j: nat)
    requires ValidPattern(t)
    requires 1 <= n <= |s1| && n <= |s2| && s1[..n] == s2[..n] && s1[n - 1] == '>' && j < n
    ensures NameAt(s1, j, t.name) <==> NameAt(s2, j, t.name)
    ensures NameAt(s1, j, t.name) ==> j + |t.name| < n
  {
    assert s2[n - 1] == s1[..n][n - 1];
    if NameAt(s1, j, t.name) { NameHasNoGt(t, s1, j); }
    if NameAt(s2, j, t.name) { NameHasNoGt(t, s2, j); }
    if j + |t.name| < n {
      forall i | j <= i < j + |t.name| ensures s1[i] == s2[i] {
        assert s1[i] == s1[..n][i];
      }
    }
  }

  /** The name test and the `>` search after it agree on the two texts. */
  lemma NameEndPrefix(t: TagPattern, s1: string, s2: string, n: nat, j: nat)
    requires ValidPattern(t)
    requires 1 <= n <= |s1| && n <= |s2| && s1[..n] == s2[..n] && s1[n - 1] == '>' && j < n
    ensures NameEnd(t, s1, j) == NameEnd(t, s2, j)
  {
    NameAtPrefix(t, s1, s2, n, j);
    if NameAt(s1, j, t.name) {
      FindGtPrefix(s1, s2, n, j + |t.name|);
    }
  }

  /**
   * Two texts that agree up to and including a `>` at `n - 1` give the same
   * scan from every start before `n`: a match cannot cross that `>`.
   */
  lemma MatchEndAtPrefix(t: TagPattern, s1: string, s2: string, n: nat, k: nat)
    requires ValidPattern(t)
    requires 1 <= n <= |s1| && n <= |s2| && s1[..n] == s2[..n] && s1[n - 1] == '>' && k < n
    ensures MatchEndAt(t, s1, k) == MatchEndAt(t, s2, k)
  {
    assert s1[k] == s1[..n][k] == s2[k];
    if s1[k] == '<' {
      LeadInEndPrefix(t, s1, s2, n, k);
      var r := LeadInEnd(t, s1, k);
      if r.Some? {
        NameEndPrefix(t, s1, s2, n, r.value);
      }
    }
  }

  lemma LeadInEndPrefix(t: TagPattern, s1: string, s2: string, n: nat, k: nat)
    requires 1 <= n <= |s1| && n <= |s2| && s1[..n] == s2[..n] && s1[n - 1] == '>' && k < n - 1
    ensures LeadInEnd(t, s1, k) == LeadInEnd(t, s2, k)
    ensures LeadInEnd(t, s1, k).Some? ==> LeadInEnd(t, s1, k).value < n
  {
    SkipSpacePrefix(s1, s2, n, k + 1);
    var j := SkipSpace(s1, k + 1);
    assert s1[j] == s1[..n][j] == s2[j];
    if s1[j] == '/' {
      SkipSpacePrefix(s1, s2, n, j + 1);
    }
  }

  /** A text holding `r` from `d` to its end is aligned with it. */
  lemma SliceAligned(s: string, d: nat, r: string)
    requires d <= |s| && s[d..] == r
    ensures Aligned(s, d, r)
  {
    forall i | 0 <= i < |r| ensures s[d + i] == r[i] {
      assert s[d..][i] == s[d + i];
    }
  }

  /** `sp` is `c` with `b` spliced in at `p`, described piece by piece. */
  ghost predicate SplicedAt(sp: string, c: string, b: string, p: nat) {
    p <= |c| && |sp| == |c| + |b| &&
    sp[..p] == c[..p] && sp[p..p + |b|] == b && sp[p + |b|..] == c[p..]
  }

  /** `s2` scans like `s1` moved right by `d`, from `from` on. */
  ghost predicate ScansShifted(t: TagPattern, s1: string, s2: string, d: nat, from: nat) {
    |s2| == |s1| + d &&
    forall k :: from <= k < |s1| ==> MatchEndAt(t, s2, k + d) == ShiftEnd(MatchEndAt(t, s1, k), d)
  }

  lemma {:induction false} FirstMatchShifted(t: TagPattern, s1: string, s2: string, d: nat, from: nat, lo: nat)
    requires ScansShifted(t, s1, s2, d, lo) && lo <= from
    ensures FirstMatch(t, s2, from + d) == ShiftMatch(FirstMatch(t, s1, from), d)
    decreases |s1| - from
  {
    if from < |s1| {
      FirstMatchShifted(t, s1, s2, d, from + 1, lo);
    }
  }

  /** Two texts holding the same tail, from `p` and from `p + d`, scan alike over that tail. */
  lemma AlignedScanAt(t: TagPattern, s1: string, s2: string, p: nat, d: nat, r: string, k: nat)
    requires Aligned(s1, p, r) && Aligned(s2, p + d, r) && p <= k < |s1|
    ensures MatchEndAt(t, s2, k + d) == ShiftEnd(MatchEndAt(t, s1, k), d)
  {
    var j := k - p;
    MatchEndAtSuffix(t, s1, p, r, j);
    MatchEndAtSuffix(t, s2, p + d, r, j);
    assert p + j == k && p + d + j == k + d;
  }

  lemma AlignedScans(t: TagPattern, s1: string, s2: string, p: nat, d: nat, r: string)
    requires Aligned(s1, p, r) && Aligned(s2, p + d, r)
    ensures ScansShifted(t, s1, s2, d, p)
  {
    forall k | p <= k < |s1| ensures MatchEndAt(t, s2, k + d) == ShiftEnd(MatchEndAt(t, s1, k), d) {
      AlignedScanAt(t, s1, s2, p, d, r, k);
    }
  }

  /** The search over a shared tail finds the same match in both texts, shifted by `d`. */
  lemma AlignedFirstMatch(t: TagPattern, s1: string, s2: string, p: nat, d: nat)
    requires p <= |s1| && p + d <= |s2| && s2[p + d..] == s1[p..]
    ensures FirstMatch(t, s2, p + d) == ShiftMatch(FirstMatch(t, s1, p), d)
  {
    var r := s1[p..];
    SliceAligned(s1, p, r);
    SliceAligned(s2, p + d, r);
    AlignedScans(t, s1, s2, p, d, r);
    FirstMatchShifted(t, s1, s2, d, p, p);
  }

  /** Past the splice the search proceeds as in the original text, shifted by `|b|`. */
  lemma FirstMatchAfterSplice(t: TagPattern, c: string, b: string, p: nat, sp: string)
    requires SplicedAt(sp, c, b, p)
    ensures FirstMatch(t, sp, p + |b|) == ShiftMatch(FirstMatch(t, c, p), |b|)
  {
    AlignedFirstMatch(t, c, sp, p, |b|);
  }

  lemma {:induction false} FirstMatchFrom(t: TagPattern, s: string, from: nat)
    ensures FirstMatch(t, s, from).Some? ==> from <= FirstMatch(t, s, from).value.start
    decreases |s| - from
  {
    if from < |s| && MatchEndAt(t, s, from).None? {
      FirstMatchFrom(t, s, from + 1);
    }
  }

  /** Inside a `b` in which no closing tag can start, the closing-tag search finds nothing. */
  lemma {:induction false} FirstMatchAcrossSplice(t: TagPattern, c: string, b: string, p: nat, sp: string, from: nat)
    requires ValidPattern(t) && t.closing && NoCloseTagStart(b)
    requires SplicedAt(sp, c, b, p) && p <= from <= p + |b|
    ensures FirstMatch(t, sp, from) == FirstMatch(t, sp, p + |b|)
    decreases p + |b| - from
  {
    if from < p + |b| {
      assert sp[from] == b[from - p] by { assert sp[p..p + |b|][from - p] == sp[from]; }
      if b[from - p] == '<' {
        assert sp[from + 1] == b[from - p + 1] by { assert sp[p..p + |b|][from - p + 1] == sp[from + 1]; }
        assert SkipSpace(sp, from + 1) == from + 1;
      }
      assert MatchEndAt(t, sp, from).None?;
      FirstMatchAcrossSplice(t, c, b, p, sp, from + 1);
    }
  }

  /**
   * Splicing `b` just after a `>` leaves the closing-tag search intact: the
   * match found in the spliced text is the one found in the original,
   * moved by `|b|` when it starts at or after the splice point.
   */
  lemma {:induction false} FirstMatchBeforeSplice(t: TagPattern, c: string, b: string, p: nat, sp: string, from: nat)
    requires ValidPattern(t) && t.closing && NoCloseTagStart(b)
    requires SplicedAt(sp, c, b, p) && 1 <= p && c[p - 1] == '>' && from <= p
    ensures FirstMatch(t, sp, from) == Relocate(FirstMatch(t, c, from), p, |b|)
    decreases p - from
  {
    if from == p {
      FirstMatchAcrossSplice(t, c, b, p, sp, p);
      FirstMatchAfterSplice(t, c, b, p, sp);
      FirstMatchFrom(t, c, p);
    } else {
      MatchEndAtPrefix(t, c, sp, p, from);
      FirstMatchBeforeSplice(t, c, b, p, sp, from + 1);
    }
  }
}
