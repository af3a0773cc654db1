# Talkable middleware — a Dafny model

`Talkable::Middleware` is a Rack middleware. Around every request it:

- resolves the visitor UUID. It takes the request parameter named by the constant `UUID` first, then the cookie of that name, then a generated identifier;
- lets the wrapped application answer;
- appends a cookie of that name to the response headers, with path `/` and an expiry 20 years ahead;
- rewrites the body of a plain `200` HTML page that is not an attachment.

The body is collected into one string and the application's body is closed. An invisible 1x1 beacon image that carries the UUID is spliced in just after the first `<body…>` tag. Then two integration scripts are spliced in just before the first `</head…>` tag of the text that already holds the beacon.

The project is organised as follows:

- `text.dfy`: character classes, substring search and the two primitive scanners.
- `headers.dfy`: the response header list with its first-match lookup, the cookie attributes, and the `HeaderHash` object that `set_cookie_header!` updates in place.
- `gate.dfy`: the `modifiable?` test.
- `bodies.dfy`: the two kinds of body. `collect_content` becomes a loop method, and the body object records its `each` and `close` calls.
- `tags.dfy`: the two Ruby regular expressions, `/<\s*body[^>]*>/im` and `/<\s*\/\s*head[^>]*>/im`. Each has a declarative leftmost-match reference and a deterministic scanner, and the scanner is proved sound and complete against the reference. This file also holds the locality lemmas about splicing text into a string.
- `markup.dfy`: the three HTML fragments, with the escaping and URL functions as parameters.
- `injection.dfy`: the splices and the composite rewrite, with their placement theorems.
- `middleware.dfy`: `call` and `modify_response_content` on a Rack triple.

The main result is `Injection.RewritePlacement`. In every one of the four tag situations it gives the exact rewritten text, stated in terms of the original page. This holds even though the head search runs on text the beacon has already changed. The one condition is that the escaped pixel URL contains no `<`, which `CGI.escapeHTML` guarantees.

## Model

| member | source | states |
|---|---|---|
| Text.Contains | lib/talkable/middleware.rb:139 | `include?`: true exactly when the needle occurs at some index of the text |
| Text.SkipSpace | lib/talkable/middleware.rb:126 | `\s*` scan: every character skipped is whitespace and the character it stops at is not |
| Text.FindGt | lib/talkable/middleware.rb:126 | `[^>]*>` scan: the index found holds the first `>` at or after the start; none means there is no `>` there |
| Headers.Lookup | lib/talkable/middleware.rb:137-145 | `headers[name]`: nil exactly when no field has that name, otherwise the value of the first field with that name |
| Headers.LookupIgnoresCookie | lib/talkable/middleware.rb:32-34 | appending a Set-Cookie entry changes the lookup of no field name |
| Headers.UuidCookie | lib/talkable/middleware.rb:71-73 | the cookie is named by the `UUID` constant, carries the visitor UUID, has path `/` and expires 20*365 days after now |
| Headers.HeaderHash.SetCookieHeader | lib/talkable/middleware.rb:33 | the header object gains exactly one cookie entry at the end, and every field lookup is unchanged |
| Gate.IsHtml | lib/talkable/middleware.rb:137-140 | `html?`: true exactly when some first `Content-Type` field holds `text/html` at some index |
| Gate.IsAttachment | lib/talkable/middleware.rb:142-145 | `attachment?`: true exactly when some first `Content-Disposition` field holds `attachment` at some index |
| Gate.Modifiable | lib/talkable/middleware.rb:108-111 | eligible exactly when the status is 200, the first Content-Type field contains `text/html`, and no first Content-Disposition field contains `attachment` |
| Gate.HtmlPageIsModifiable | lib/talkable/middleware.rb:108-111 | a 200 response with `text/html; charset=utf-8` is eligible |
| Gate.JsonIsNotModifiable | lib/talkable/middleware.rb:137-140 | a JSON content type is not eligible |
| Gate.AttachmentIsNotModifiable | lib/talkable/middleware.rb:142-145 | an HTML attachment is not eligible |
| Gate.NonOkIsNotModifiable | lib/talkable/middleware.rb:110 | a response with any status other than 200 is never eligible, whatever its headers |
| Bodies.Collected | lib/talkable/middleware.rb:113-123 | what `collect_content` yields: nil exactly for an empty chunk list, a buffered body as it is, and otherwise a text as long as all the chunks together, with each chunk unchanged at its offset |
| Bodies.Accumulate | lib/talkable/middleware.rb:113-123 | the loop yields nil exactly for an empty chunk list, otherwise the concatenation of all chunks in order |
| Bodies.ConcatAppend | lib/talkable/middleware.rb:117 | appending a chunk list appends its concatenation |
| Bodies.ChunkAt | lib/talkable/middleware.rb:116-118 | chunk k appears in the collected text, unchanged, at the offset of the chunks before it |
| Bodies.ChunksInConcat | lib/talkable/middleware.rb:116-118 | the joined text is as long as all chunks together and holds every chunk at its offset |
| Bodies.StreamedEqualsBuffered | lib/talkable/middleware.rb:113-123 | a non-empty chunk list collects to the same text as one buffer holding the chunks joined |
| Bodies.ThreeChunkPage | lib/talkable/middleware.rb:113-123 | a page in three chunks collects to the same text as the page in one buffer |
| Bodies.ResponseBody.Each | lib/talkable/middleware.rb:116 | iteration yields the chunks and records one iteration |
| Bodies.ResponseBody.Close | lib/talkable/middleware.rb:41 | records one close |
| Bodies.CollectAndClose | lib/talkable/middleware.rb:39-41 | returns the collected content; a chunk body is iterated once, and a closeable body is closed once, after the iteration |
| Tags.MatchEndAtSound | lib/talkable/middleware.rb:126-127 | whatever the scanner reports at an index is a match of the pattern there |
| Tags.MatchEndAtComplete | lib/talkable/middleware.rb:126-127 | every match of the pattern at an index is the one the scanner reports |
| Tags.FirstMatch | lib/talkable/middleware.rb:127 | `pattern.match`: the first start index at or after `from` where the scanner reports a match; its properties are those of `Tags.FirstMatchLeftmost` |
| Tags.FirstMatchLeftmost | lib/talkable/middleware.rb:127 | the scan returns the leftmost match, and none only when no match starts at or after the start index |
| Tags.BodyInjectionPosition | lib/talkable/middleware.rb:125-129 | a position found lies just after a `>` of the text |
| Tags.BodyInjectionPositionLeftmost | lib/talkable/middleware.rb:125-129 | the position is the end of the leftmost body tag, and nil exactly when there is no body tag |
| Tags.HeadInjectionPosition | lib/talkable/middleware.rb:131-135 | a position found holds a `<` of the text |
| Tags.HeadInjectionPositionLeftmost | lib/talkable/middleware.rb:131-135 | the position is the start of the leftmost closing head tag, and nil exactly when there is none |
| Tags.FirstMatchBeforeSplice | lib/talkable/middleware.rb:60-62 | after a fragment with no closing-tag start is spliced in after a `>`, the closing-tag search finds the original match, moved by the fragment's length when it lay after the splice |
| Markup.SyncUuidUrl | lib/talkable/middleware.rb:75-77 | the pixel URL with `current_visitor_uuid` set to the UUID; the query builder is a parameter, so nothing more is promised |
| Markup.SyncUuidContent | lib/talkable/middleware.rb:79-84 | the image tag opening, then the escaped pixel URL as its source, then the off-screen style and the tag's end |
| Markup.IntegrationScriptContent | lib/talkable/middleware.rb:90-99 | the queueing script, whose `site_id` is the URL-escaped site slug |
| Markup.IntegrationInitContent | lib/talkable/middleware.rb:101-106 | the loader script, whose source is the escaped integration library URL |
| Markup.IntegrationContent | lib/talkable/middleware.rb:86-88 | the queueing script, then the loader: the escaped site slug, and after it the escaped library URL |
| Markup.BeaconHasNoCloseTagStart | lib/talkable/middleware.rb:79-84 | the beacon fragment cannot begin a closing tag when the escaped URL has no `<` |
| Injection.Splice | lib/talkable/middleware.rb:67-69 | the text before the position, then the injection, then the text from the position on |
| Injection.InsertAfterBody | lib/talkable/middleware.rb:53-58 | a splice after the body tag: the text grows by the fragment exactly when it holds a body tag |
| Injection.InsertBeforeHead | lib/talkable/middleware.rb:60-65 | a splice before the closing head tag: the text grows by the fragment exactly when it holds one |
| Injection.InjectUuidInBody | lib/talkable/middleware.rb:53-58 | the text never shrinks, and it is left unchanged exactly when it holds no body tag |
| Injection.InjectIntegrationJsInHead | lib/talkable/middleware.rb:60-65 | the text never shrinks, and it is left unchanged exactly when it holds no closing head tag |
| Injection.InjectUuidInBodyPlacement | lib/talkable/middleware.rb:53-58 | the text changes exactly when it holds a body tag, and then the beacon sits right after the leftmost one |
| Injection.InjectIntegrationJsInHeadPlacement | lib/talkable/middleware.rb:60-65 | the text changes exactly when it holds a closing head tag, and then the scripts sit right before the leftmost one |
| Injection.Rewrite | lib/talkable/middleware.rb:18-21 | the block's rewrite: the page comes back unchanged exactly when it holds neither a body tag nor a closing head tag |
| Injection.RewriteContent | lib/talkable/middleware.rb:18-21 | nil passes through as nil; a string comes back rewritten, and unchanged exactly when it holds neither tag |
| Injection.HeadSearchAfterSplice | lib/talkable/middleware.rb:18-21 | after any fragment that cannot start a closing tag is spliced in past the body tag, the head search finds the original head position, moved past the fragment when it lay after the body tag |
| Injection.HeadSearchAfterBeacon | lib/talkable/middleware.rb:18-21 | the head position searched in the text with the beacon equals the original head position, moved past the beacon when it lay after the body tag |
| Injection.PlacementOf | lib/talkable/middleware.rb:18-21 | for any two fragments, the first of which cannot start a closing tag, the exact text after both splices for each combination of tags |
| Injection.RewritePlacement | lib/talkable/middleware.rb:18-21 | the exact rewritten page for each combination of body tag and closing head tag, present or absent, in either order |
| Middleware.TalkableVisitorUuid | lib/talkable/middleware.rb:27-30 | the parameter if present, else the cookie if present, else the generated identifier |
| Middleware.ModifyResponseContent | lib/talkable/middleware.rb:36-51 | an ineligible response is returned with its body untouched; an eligible one is collected and closed, and the block's result either gives back the original or builds a fresh buffered body with the same status and headers |
| Middleware.Call | lib/talkable/middleware.rb:10-23 | the UUID cookie is appended to every response, the gate sees the application's headers, and an eligible page comes back with the rewritten content |

## Left out

- Rack request parsing: the request is reduced to two string maps, its request parameters (query string and form body alike) and its cookies. Nested or non-string parameter values are not modelled.
- The constant `UUID`, which names both the parameter and the cookie, is defined outside this file. Its value is not modelled: it is the parameter `key` of `Middleware.Call`, `Middleware.TalkableVisitorUuid` and `Headers.UuidCookie`.
- `Talkable.with_uuid`, `@app.call` and `Talkable.find_or_generate_uuid` are calls into other code. The application's response and the generated identifier are parameters. That the generator runs only when neither candidate is present is not captured.
- `Time.now` is the parameter `now`, in whole seconds. The expiry is `now + 630720000`, which is 20 × 365 days exactly as the code computes it. Leap days are ignored, so this is not 20 calendar years.
- `Rack::Utils.set_cookie_header!` is modelled as appending an abstract cookie entry. Its text formatting and merging with an existing `Set-Cookie` value are left out.
- Headers.Lookup: the lookup is exact and case-sensitive on the field name. The case-insensitive matching a `Rack::Utils::HeaderHash` would give is not modelled.
- The status is an integer. A status held as the string `"200"` fails the Ruby comparison and has no counterpart here.
- `Furi.update`, `CGI.escapeHTML`, `CGI.escape` and the configuration are parameters. The placement theorems assume only that the escaped pixel URL holds no `<`.
- Each chunk is a string, so `chunk.to_s` is taken as the chunk itself. Ruby's `<<` appends to the first chunk's own string object. That aliasing, which mutates the application's first chunk, is not captured: the collected text is a fresh value.
- `Rack::Response#finish`: the new response's `Content-Length` field and the body wrapper are left out. The new body is a fresh, non-closeable buffered body holding the rewritten text, with the original status and headers.
- Exceptions: a body whose iteration or close raises is not modelled. The source has no `ensure`, so close is modelled on the normal path only.
- Regular expressions: `\s` is the six ASCII whitespace characters. Case folding under `/i` is that of the ASCII letters in `body` and `head`. Positions are character indices.
- A body that does not respond to `each` is used as it is (`Buffered`). An empty chunk list collects to nil: the body is iterated and closed, and then the original response is returned.
