/**
 * The two markup fragments: the tracking pixel injected after the body tag
 * (`sync_uuid_content`) and the integration scripts injected before the
 * closing head tag (`integration_content`). The escaping functions and the
 * query-string builder come from libraries outside this model and are
 * parameters: `CGI::escapeHTML`, `CGI::escape` and `Furi.update`.
 */
module Markup {
  import opened Tags
  import Text

  /** The site configuration read by the templates. */
  datatype Configuration = Configuration(siteSlug: string, jsIntegrationLibrary: string)

  /** The library functions the templates call. */
  datatype Library = Library(
    escapeHtml: string -> string,                   // CGI::escapeHTML
    escape: string -> string,                       // CGI::escape
    updateQuery: (string, string, string) -> string // Furi.update(url, query: {key => value})
  )

  const PixelUrl: string := "https://www.talkable.com/public/1x1.gif"

  const BeaconOpen: string := "\n<img src=\""
  // Written as two literals: the membership facts of `BeaconPieces` are checked per literal,
  // and each must stay short for that.
  const BeaconClose: string := "\" style=\"position:absolute; " + "left:-9999px;\" alt=\"\" />\n      "

  const ScriptOpen: string := "\n<script>\n  window._talkableq = window._talkableq || [];\n  _talkableq.push(['init', {\n    site_id: '"
  const ScriptClose: string := "'\n  }]);\n</script>\n      "

  const LoaderOpen: string := "\n<script src=\""
  const LoaderClose: string := "\" type=\"text/javascript\"></script>\n      "

  /** `sync_uuid_url`: the pixel URL carrying the visitor UUID as `current_visitor_uuid`. */
  function SyncUuidUrl(lib: Library, uuid: string): string {
    lib.updateQuery(PixelUrl, "current_visitor_uuid", uuid)
  }

  /** `sync_uuid_content`: an off-screen image whose source is the escaped pixel URL. */
  function SyncUuidContent(lib: Library, uuid: string): (r: string)
    ensures var src := lib.escapeHtml(SyncUuidUrl(lib, uuid));
            |r| == |BeaconOpen| + |src| + |BeaconClose| &&
            Text.OccursAt(r, BeaconOpen, 0) && Text.OccursAt(r, src, |BeaconOpen|) &&
            Text.OccursAt(r, BeaconClose, |BeaconOpen| + |src|)
  {
    BeaconOpen + lib.escapeHtml(SyncUuidUrl(lib, uuid)) + BeaconClose
  }

  /** `integration_script_content`: queues the `init` call for the URL-escaped site slug. */
  function IntegrationScriptContent(lib: Library, cfg: Configuration): (r: string)
    ensures var id := lib.escape(cfg.siteSlug);
            |r| == |ScriptOpen| + |id| + |ScriptClose| &&
            Text.OccursAt(r, ScriptOpen, 0) && Text.OccursAt(r, id, |ScriptOpen|) &&
            Text.OccursAt(r, ScriptClose, |ScriptOpen| + |id|)
  {
    ScriptOpen + lib.escape(cfg.siteSlug) + ScriptClose
  }

  /** `integration_init_content`: loads the escaped integration library URL. */
  function IntegrationInitContent(lib: Library, cfg: Configuration): (r: string)
    ensures var src := lib.escapeHtml(cfg.jsIntegrationLibrary);
            |r| == |LoaderOpen| + |src| + |LoaderClose| &&
            Text.OccursAt(r, LoaderOpen, 0) && Text.OccursAt(r, src, |LoaderOpen|) &&
            Text.OccursAt(r, LoaderClose, |LoaderOpen| + |src|)
  {
    LoaderOpen + lib.escapeHtml(cfg.jsIntegrationLibrary) + LoaderClose
  }

  /**
   * `integration_content`: the queueing script, then the loader. The escaped
   * site slug comes first and the escaped library URL after it.
   */
  function IntegrationContent(lib: Library, cfg: Configuration): (r: string)
    ensures var id, src := lib.escape(cfg.siteSlug), lib.escapeHtml(cfg.jsIntegrationLibrary);
            var script := IntegrationScriptContent(lib, cfg);
            |r| == |script| + |IntegrationInitContent(lib, cfg)| &&
            Text.OccursAt(r, id, |ScriptOpen|) &&
            Text.OccursAt(r, src, |script| + |LoaderOpen|)
  {
    var script, loader := IntegrationScriptContent(lib, cfg), IntegrationInitContent(lib, cfg);
    var r := script + loader;
    assert r[|ScriptOpen|..|ScriptOpen| + |lib.escape(cfg.siteSlug)|] ==
           script[|ScriptOpen|..|ScriptOpen| + |lib.escape(cfg.siteSlug)|];
    assert r[|script| + |LoaderOpen|..|script| + |LoaderOpen| + |lib.escapeHtml(cfg.jsIntegrationLibrary)|] ==
           loader[|LoaderOpen|..|LoaderOpen| + |lib.escapeHtml(cfg.jsIntegrationLibrary)|];
    r
  }

  /** The beacon's fixed pieces: the only `<` is the one that opens `<img`. */
  lemma BeaconPieces()
    ensures |BeaconOpen| >= 3 && BeaconOpen[0] == '\n' && BeaconOpen[1] == '<' && BeaconOpen[2] == 'i'
    ensures '<' !in BeaconOpen[2..] && '<' !in BeaconClose
  {
  }

  /** A text whose only `<` opens a tag name cannot begin a closing tag. */
  lemma OnlyOpeningLt(a: string, u: string, z: string)
    requires |a| >= 3 && a[0] != '<' && a[1] == '<' && a[2] == 'i' && '<' !in a[2..]
    requires '<' !in u && '<' !in z
    ensures NoCloseTagStart(a + u + z)
  {
    var b := a + u + z;
    forall i | 0 <= i < |b| && b[i] == '<'
      ensures i + 1 < |b| && !Text.IsSpace(b[i + 1]) && b[i + 1] != '/'
    {
    }
  }

  /**
   * The beacon cannot begin a closing tag, as long as the escaped URL holds
   * no `<`: its only `<` is the one of `<img`.
   */
  lemma BeaconHasNoCloseTagStart(lib: Library, uuid: string)
    requires '<' !in lib.escapeHtml(SyncUuidUrl(lib, uuid))
    ensures NoCloseTagStart(SyncUuidContent(lib, uuid))
  {
    BeaconPieces();
    OnlyOpeningLt(BeaconOpen, lib.escapeHtml(SyncUuidUrl(lib, uuid)), BeaconClose);
  }
}
