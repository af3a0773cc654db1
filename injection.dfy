/**
 * The two splices (`inject_uuid_in_body`, `inject_integration_js_in_head`,
 * `inject_in_content`) and the rewrite they make up: the pixel goes in just
 * after the first body tag, then the head search runs on the text that
 * already holds the pixel and the scripts go in just before the closing
 * head tag it finds. A missing tag skips its own splice only.
 */
module Injection {
  import opened Wrappers
  import opened Tags
  import opened Markup

  /** `inject_in_content`: `injection` inserted at `position`, the text on either side kept. */
  function Splice(content: string, injection: string, position: nat): (r: string)
    requires position <= |content|
    ensures |r| == |content| + |injection|
    ensures r[..position] == content[..position]
    ensures r[position..position + |injection|] == injection
    ensures r[position + |injection|..] == content[position..]
  {
    content[..position] + injection + content[position..]
  }

  /** The splice after the first body tag, if there is one, of any fragment. */
  function InsertAfterBody(content: string, fragment: string): (r: string)
    ensures |r| == |content| + (if BodyInjectionPosition(content).Some? then |fragment| else 0)
  {
    match BodyInjectionPosition(content)
    case Some(p) => Splice(content, fragment, p)
    case None => content
  }

  /** The splice before the first closing head tag, if there is one, of any fragment. */
  function InsertBeforeHead(content: string, fragment: string): (r: string)
    ensures |r| == |content| + (if HeadInjectionPosition(content).Some? then |fragment| else 0)
  {
    match HeadInjectionPosition(content)
    case Some(q) => Splice(content, fragment, q)
    case None => content
  }

  /** `inject_uuid_in_body`: the pixel spliced in after the first body tag; the text changes exactly when there is one. */
  function InjectUuidInBody(lib: Library, uuid: string, content: string): (r: string)
    ensures |r| >= |content|
    ensures r == content <==> BodyInjectionPosition(content).None?
  {
    InsertAfterBody(content, SyncUuidContent(lib, uuid))
  }

  /** `inject_integration_js_in_head`: the scripts spliced in before the first closing head tag; the text changes exactly when there is one. */
  function InjectIntegrationJsInHead(lib: Library, cfg: Configuration, content: string): (r: string)
    ensures |r| >= |content|
    ensures r == content <==> HeadInjectionPosition(content).None?
  {
    InsertBeforeHead(content, IntegrationContent(lib, cfg))
  }

  /**
   * The body step changes the text exactly when it holds a body tag, and then
   * inserts the pixel just past the leftmost one.
   */
  lemma InjectUuidInBodyPlacement(lib: Library, uuid: string, content: string)
    ensures InjectUuidInBody(lib, uuid, content) == content <==> forall i, e :: !TagAt(BodyOpen, content, i, e)
    ensures forall i, p :: Leftmost(BodyOpen, content, i, p) ==>
              p <= |content| &&
              InjectUuidInBody(lib, uuid, content) == content[..p] + SyncUuidContent(lib, uuid) + content[p..]
  {
    BodyInjectionPositionLeftmost(content);
    LeftmostUnique(BodyOpen, content);
    var r := InjectUuidInBody(lib, uuid, content);
    if BodyInjectionPosition(content).Some? {
      assert |r| != |content|;
    }
  }

  /**
   * The head step changes the text exactly when it holds a closing head tag,
   * and then inserts the scripts just before the leftmost one.
   */
  lemma InjectIntegrationJsInHeadPlacement(lib: Library, cfg: Configuration, content: string)
    ensures InjectIntegrationJsInHead(lib, cfg, content) == content <==> forall i, e :: !TagAt(HeadClose, content, i, e)
    ensures forall q, e :: Leftmost(HeadClose, content, q, e) ==>
              q <= |content| &&
              InjectIntegrationJsInHead(lib, cfg, content) == content[..q] + IntegrationContent(lib, cfg) + content[q..]
  {
    HeadInjectionPositionLeftmost(content);
    LeftmostUnique(HeadClose, content);
    var r := InjectIntegrationJsInHead(lib, cfg, content);
    if HeadInjectionPosition(content).Some? {
      assert |r| != |content|;
    }
  }

  /**
   * The block `call` passes to `modify_response_content`: the body splice,
   * then the head splice. The page comes back unchanged exactly when it
   * holds neither a body tag nor a closing head tag.
   */
  function Rewrite(lib: Library, cfg: Configuration, uuid: string, content: string): (r: string)
    ensures r == content <==> BodyInjectionPosition(content).None? && HeadInjectionPosition(content).None?
  {
    InjectIntegrationJsInHead(lib, cfg, InjectUuidInBody(lib, uuid, content))
  }

  /**
   * The block applied to what `collect_content` returned: `nil` matches no
   * pattern and passes through, and a string is rewritten.
   */
  function RewriteContent(lib: Library, cfg: Configuration, uuid: string, content: Option<string>): (r: Option<string>)
    ensures r.None? <==> content.None?
    ensures content.Some? ==>
              (r.value == content.value <==>
               BodyInjectionPosition(content.value).None? && HeadInjectionPosition(content.value).None?)
  {
    match content
    case Some(c) => Some(Rewrite(lib, cfg, uuid, c))
    case None => None
  }

  /** There is one leftmost match, and the scanner reports it. */
  lemma LeftmostUnique(t: TagPattern, s: string)
    requires ValidPattern(t)
    ensures forall i, e :: Leftmost(t, s, i, e) ==>
              FirstMatch(t, s, 0) == Some(Match(i, e))
  {
    FirstMatchLeftmost(t, s, 0);
    forall i, e | Leftmost(t, s, i, e) ensures FirstMatch(t, s, 0) == Some(Match(i, e)) {
      var m := FirstMatch(t, s, 0).value;
      assert m.start == i;
      MatchEndAtComplete(t, s, i, e);
      MatchEndAtComplete(t, s, i, m.end);
    }
  }

  /** A position in the original text, as a position in the text with `d` characters spliced in at `p`. */
  function MovePast(q: Option<nat>, p: nat, d: nat): Option<nat> {
    match q
    case None => None
    case Some(x) => Some(if x < p then x else x + d)
  }

  /** Splicing at `q` before an earlier splice at `p`. */
  lemma SpliceBefore(c: string, b: string, x: string, p: nat, q: nat)
    requires q < p <= |c|
    ensures Splice(Splice(c, b, p), x, q) == c[..q] + x + c[q..p] + b + c[p..]
  {
    var mid := Splice(c, b, p);
    assert mid[..q] == c[..q];
    assert mid[q..] == c[q..p] + b + c[p..];
  }

  /** Splicing past an earlier splice of `b` at `p`, at the moved position of `q`. */
  lemma SpliceAfter(c: string, b: string, x: string, p: nat, q: nat)
    requires p <= q <= |c|
    ensures Splice(Splice(c, b, p), x, q + |b|) == c[..p] + b + c[p..q] + x + c[q..]
  {
    var mid := Splice(c, b, p);
    assert mid[..q + |b|] == c[..p] + b + c[p..q];
    assert mid[q + |b|..] == c[q..];
  }

  /**
   * The head search on a text into which `b` was spliced after the body tag
   * finds the closing head tag of the original text, moved by `|b|` if it
   * lay past the body tag, provided no closing tag can start inside `b`.
   */
  lemma HeadSearchAfterSplice(c: string, b: string, p: nat)
    requires NoCloseTagStart(b)
    requires BodyInjectionPosition(c) == Some(p)
    ensures HeadInjectionPosition(Splice(c, b, p)) == MovePast(HeadInjectionPosition(c), p, |b|)
  {
    var sp := Splice(c, b, p);
    assert 1 <= p <= |c| && c[p - 1] == '>';
    assert SplicedAt(sp, c, b, p);
    FirstMatchBeforeSplice(HeadClose, c, b, p, sp, 0);
    var before := FirstMatch(HeadClose, c, 0);
    assert FirstMatch(HeadClose, sp, 0) == Relocate(before, p, |b|);
    var after := if before.Some? then Some(if before.value.start < p then before.value.start else before.value.start + |b|) else None;
    assert HeadInjectionPosition(sp) == after;
  }

  /**
   * The head search on the text holding the pixel finds the closing head tag
   * of the original text, moved by the pixel's length if it lay past the
   * body tag, provided the escaped pixel URL holds no `<`.
   */
  lemma HeadSearchAfterBeacon(lib: Library, uuid: string, c: string, p: nat)
    requires '<' !in lib.escapeHtml(SyncUuidUrl(lib, uuid))
    requires BodyInjectionPosition(c) == Some(p)
    ensures HeadInjectionPosition(Splice(c, SyncUuidContent(lib, uuid), p)) ==
            MovePast(HeadInjectionPosition(c), p, |SyncUuidContent(lib, uuid)|)
  {
    BeaconHasNoCloseTagStart(lib, uuid);
    HeadSearchAfterSplice(c, SyncUuidContent(lib, uuid), p);
  }

  /** Where two fragments land, the first after the body tag, then the second before the closing head tag. */
  lemma PlacementOf(c: string, b: string, x: string)
    requires NoCloseTagStart(b)
    ensures
      var r := InsertBeforeHead(InsertAfterBody(c, b), x);
      match (BodyInjectionPosition(c), HeadInjectionPosition(c))
      case (None, None) => r == c
      case (Some(p), None) => p <= |c| && r == c[..p] + b + c[p..]
      case (None, Some(q)) => q <= |c| && r == c[..q] + x + c[q..]
      case (Some(p), Some(q)) =>
        q < |c| && p <= |c| &&
        if q < p then r == c[..q] + x + c[q..p] + b + c[p..]
        else r == c[..p] + b + c[p..q] + x + c[q..]
  {
    match BodyInjectionPosition(c)
    case None =>
    case Some(p) =>
      var mid := Splice(c, b, p);
      assert InsertAfterBody(c, b) == mid;
      HeadSearchAfterSplice(c, b, p);
      match HeadInjectionPosition(c)
      case None =>
      case Some(q) =>
        if q < p {
          assert HeadInjectionPosition(mid) == Some(q);
          SpliceBefore(c, b, x, p, q);
        } else {
          assert HeadInjectionPosition(mid) == Some(q + |b|);
          assert InsertBeforeHead(mid, x) == Splice(mid, x, q + |b|);
          SpliceAfter(c, b, x, p, q);
        }
  }

  /**
   * Where the two fragments land, in terms of the original text. The head
   * search runs on the text holding the pixel, but, as long as the escaped
   * pixel URL holds no `<`, it finds the closing head tag it would have
   * found in the original: before the body tag (the usual page) the scripts
   * go in ahead of the pixel, after it (a malformed page) they follow it.
   */
  lemma RewritePlacement(lib: Library, cfg: Configuration, uuid: string, c: string)
    requires '<' !in lib.escapeHtml(SyncUuidUrl(lib, uuid))
    ensures
      var beacon, scripts := SyncUuidContent(lib, uuid), IntegrationContent(lib, cfg);
      var r := Rewrite(lib, cfg, uuid, c);
      match (BodyInjectionPosition(c), HeadInjectionPosition(c))
      case (None, None) => r == c
      case (Some(p), None) => p <= |c| && r == c[..p] + beacon + c[p..]
      case (None, Some(q)) => q <= |c| && r == c[..q] + scripts + c[q..]
      case (Some(p), Some(q)) =>
        q < |c| && p <= |c| &&
        if q < p then r == c[..q] + scripts + c[q..p] + beacon + c[p..]
        else r == c[..p] + beacon + c[p..q] + scripts + c[q..]
  {
    var beacon, scripts := SyncUuidContent(lib, uuid), IntegrationContent(lib, cfg);
    BeaconHasNoCloseTagStart(lib, uuid);
    PlacementOf(c, beacon, scripts);
    assert Rewrite(lib, cfg, uuid, c) == InsertBeforeHead(InsertAfterBody(c, beacon), scripts);
  }
}
