# lighttpd2 request ingestion: header store and request validator

This project models two cooperating parts of lighttpd2's HTTP/1.x request path
and proves what they promise.

**The header store** (`src/http_headers.c`) is a reference-counted queue of
header entries in arrival order. Duplicate keys are allowed. Each entry is one
buffer `"<key>: <value>"` plus the key length, so key and value are slices of
that buffer. Keys match when their lengths agree and they are equal up to ASCII
case. The store can insert, find first/next/last occurrences, look up the last
occurrence ("last one wins"), comma-fold onto the last occurrence (append),
replace the last occurrence (overwrite), remove every occurrence, test whether
some occurrence carries a value, and join all values with `", "`. A
copy-on-write `try_reset` reuses the store when the caller is its only owner
and hands out a fresh one otherwise. Folding and ordering follow section 3.2.2
of RFC 7230.

**The request validator** (`src/request.c`) resets a request record between
pipelined requests and runs a fixed, fail-fast chain of protocol checks on a
parsed request: version and persistence defaulting (section 6.3 of RFC 7230),
a non-empty request target, at most one Host and a host under HTTP/1.1
(section 5.4 of RFC 7230), `*` only for OPTIONS (section 5.3.4 of RFC 7230),
Content-Length (section 3.3.2 of RFC 7230), Expect: 100-continue (section
5.1.1 of RFC 7231, 417 per section 6.5.14) and the per-method body rules (411
per section 6.5.10 of RFC 7231). The first failing check answers through
`bad_request`, which sets the status and closes the connection.

Files:

- `wrappers.dfy`, `ascii.dfy`: `Option` (the C code's NULL) and ASCII case folding.
- `header_spec.dfy` (module `HeaderSpec`): the pure view of the entry queue and the lemmas about it.
- `http_headers.dfy` (module `HttpHeaders`): class `Headers`, whose methods change the queue and the
  count in place and are proved against `HeaderSpec`. Cursors (`GList*`) are indices and NULL is `None`.
- `request_spec.dfy` (module `RequestSpec`): the validator as an ordered rule list (`Checks`, `RunChecks`, `Validate`).
- `request.dfy` (module `HttpRequest`): classes `Request` and `Connection`. `Connection.ValidateHeader`
  runs the checks with early returns and is proved to leave the connection exactly as `RequestSpec.Validate` says.
- `request_properties.dfy`, `request_scenarios.dfy`: what the validator guarantees, and worked requests.

The URL helpers `parse_raw_url`, `parse_hostname`, `url_decode`, `path_simplify`
and `str_to_off_t` (with `errno`) are not part of this model. They are the
fields of `RequestSpec.Collaborators`, a value passed to the validator. Every
property here holds whatever those helpers do. `str_to_off_t` is seen only
through `OffTParse(value, trailingGarbage, rangeError)`.

Where the code and its documentation disagree, the model follows the code,
except for the defects named in the first two items below, which it does not
reproduce:

- `src/http_headers.c:116` and `src/http_headers.c:131` cast the list link itself to an entry
  (`(http_header*) l` instead of `l->data`). `Append` and `Overwrite` operate on the last
  occurrence's entry, as the comments at lines 107 and 122 say.
- `src/request.c:120` dereferences the cursor when there is no `host` header at all. The model
  appends nothing to the authority and does not call `parse_hostname` in that case. An HTTP/1.1
  request is then rejected by the host-required check at lines 129-132, and an HTTP/1.0 request
  goes on. In that branch the host buffer keeps whatever it held on entry, which is empty after
  request_reset (line 35); the request target is parsed only afterwards, at line 135.
- Content-Length: the code tests `r < 0` before the overflow test, so an underflow to the smallest
  `off_t` is answered with 400, not 413. The model follows the code; 413 comes only from an overflow
  to the largest `off_t` with `errno` reading `ERANGE`.
- Keep-alive: the validator only ever clears the flag. "HTTP/1.1 defaults to keep-alive" holds only
  in the sense that the flag is left as the connection had it.

## Model

| member | source | states |
|---|---|---|
| HeaderSpec.NewHeader | src/http_headers.c:11-19 | the line is `key + ": " + value`, `keylen == |key|`, and slicing at `keylen` and `keylen + 2` gives back key and value |
| HeaderSpec.NextMatch | src/http_headers.c:75-94 | the lowest index at or after `from` whose key matches, with nothing matching in between; None when nothing matches from there on |
| HeaderSpec.LastMatchBefore | src/http_headers.c:96-105 | the highest matching index below `n`, with nothing matching after it; None when nothing matches |
| HeaderSpec.OccurrencesAreMatches | src/http_headers.c:75-94 | find_first followed by repeated find_next visits exactly the matching positions, each once, in increasing (arrival) order |
| HeaderSpec.OccurrencesSnoc | src/http_headers.c:70-73 | insert adds the new position at the end of every matching key's enumeration and moves nothing else |
| HeaderSpec.LastMatchSnoc | src/http_headers.c:70-73 | after inserting an entry for `key`, the last occurrence of `key` is that new tail entry |
| HeaderSpec.OverwriteLastWins | src/http_headers.c:122-137 | after overwrite, lookup finds the line `key: value` at the old last position (or at the new tail when there was none) |
| HeaderSpec.OverwriteOccurrences | src/http_headers.c:122-137 | overwriting an existing key moves no occurrence of any key, earlier duplicates included; with no occurrence it is an insert |
| HeaderSpec.ReplaceSameKeyOccurrences | src/http_headers.c:122-137 | replacing an entry by one with the same key leaves every key's first/next enumeration unchanged |
| HeaderSpec.ReplaceSameKeyLastMatch | src/http_headers.c:122-137 | replacing an entry by one with the same key leaves every key's last occurrence unchanged |
| HeaderSpec.AppendLastWins | src/http_headers.c:107-120 | after append, the last occurrence's value is the old last value + ", " + value (or value, when there was none) and every line stays well formed |
| HeaderSpec.AppendedValues | src/http_headers.c:107-120 | append leaves the values of `key` before the last occurrence alone and grows only the last one |
| HeaderSpec.AppendFoldsLikeInsert | src/http_headers.c:107-120 | folding with append gives get_fast the same combined value as inserting a separate line, unless the combined value so far is empty |
| HeaderSpec.IsStep | src/http_headers.c:171-181 | one round of the is-loop: a skipped occurrence carries no matching value |
| HeaderSpec.IsEnd | src/http_headers.c:171-181 | when the is-loop runs out of occurrences, no occurrence carries the value |
| HeaderSpec.GetFastStep | src/http_headers.c:183-192 | one round of get_fast: ", " goes before the next value only when the text so far is non-empty |
| HeaderSpec.GetFastEnd | src/http_headers.c:183-192 | when get_fast's scan ends, the text holds the values of all occurrences |
| HeaderSpec.JoinIsCommaList | src/http_headers.c:183-192 | when no value is empty, get_fast's text is the comma-separated list of section 3.2.2 of RFC 7230 |
| HeaderSpec.JoinEmpty | src/http_headers.c:183-192 | get_fast's text is empty exactly when every value is empty |
| HeaderSpec.WithoutMembers | src/http_headers.c:144-162 | remove keeps exactly the entries that do not match the key |
| HeaderSpec.WithoutKeepsOtherValues | src/http_headers.c:144-162 | removing one key leaves every other key's values exactly as they were, in order |
| HeaderSpec.WithoutShrinks | src/http_headers.c:144-162 | the store gets shorter exactly when some entry matched |
| HeaderSpec.WithoutHasNoMatch | src/http_headers.c:144-162 | after remove no entry matches the key, so lookup finds nothing |
| HeaderSpec.RemoveIdempotent | src/http_headers.c:144-162 | a second remove changes nothing and finds nothing to remove |
| HeaderSpec.WithoutWellFormed | src/http_headers.c:144-162 | remove keeps every remaining line well formed |
| HeaderSpec.RemoveFirst | src/http_headers.c:148 | the first occurrence found becomes the pending deletion, with nothing before it removed |
| HeaderSpec.RemoveRound | src/http_headers.c:148-155 | one round of the deferred-deletion loop: deleting the pending entry and taking the next occurrence keeps the loop's invariant |
| HeaderSpec.RemoveFinal | src/http_headers.c:156-161 | deleting the last pending entry leaves exactly the filtered store, and something matched |
| HttpHeaders.Headers.constructor | src/http_headers.c:26-31 | a new store is empty with reference count 1 |
| HttpHeaders.Headers.Reset | src/http_headers.c:33-36 | every entry is dropped in place; the count is untouched |
| HttpHeaders.Headers.Acquire | src/http_headers.c:45-48 | requires a live store (count > 0) and adds one owner; entries untouched |
| HttpHeaders.Release | src/http_headers.c:50-56 | a null store is ignored; otherwise one owner fewer, and the store is destroyed (emptied) exactly when the count reaches 0 |
| HttpHeaders.Headers.TryReset | src/http_headers.c:58-67 | the sole owner gets the same store back, empty with count 1; otherwise the old store loses one owner and keeps its entries, and the caller gets a fresh empty store with count 1 |
| HttpHeaders.Headers.Insert | src/http_headers.c:70-73 | exactly one entry `key: value` is added at the tail; earlier entries and the count are unchanged |
| HttpHeaders.Headers.FindFirst | src/http_headers.c:75-84 | returns the lowest matching index, or None |
| HttpHeaders.Headers.FindNext | src/http_headers.c:86-94 | returns the lowest matching index after the cursor, or None |
| HttpHeaders.Headers.FindLast | src/http_headers.c:96-105 | returns the highest matching index, or None |
| HttpHeaders.Headers.Append | src/http_headers.c:107-120 | with no occurrence an insert; otherwise only the last occurrence's line grows by ", " + value, the count of entries stays |
| HttpHeaders.Headers.Overwrite | src/http_headers.c:122-137 | with no occurrence an insert; otherwise only the last occurrence's line becomes `key: value`, keylen unchanged, earlier duplicates kept |
| HttpHeaders.Headers.RemoveLink | src/http_headers.c:139-142 | exactly the entry at the cursor is deleted, the rest keep their order |
| HttpHeaders.Headers.Remove | src/http_headers.c:144-162 | the deferred-deletion loop leaves the store filtered of every occurrence in the original order, and returns true iff something matched |
| HttpHeaders.Headers.Lookup | src/http_headers.c:164-169 | the entry of the last occurrence, with nothing matching after it; None iff there is no occurrence |
| HttpHeaders.Headers.Is | src/http_headers.c:171-181 | true iff some occurrence's value has the length of `val` and equals it up to ASCII case |
| HttpHeaders.Headers.GetFast | src/http_headers.c:183-192 | the values of all occurrences in arrival order, joined with ", " put only after non-empty text |
| HttpRequest.Request.constructor | src/request.c:6-23 | method and version unset, method text and all six URI buffers empty, content length -1, a new empty store with count 1 |
| HttpRequest.Request.Reset | src/request.c:25-42 | the same empty state, with the header store replaced through try_reset (reused when sole owner, fresh otherwise, the other owners' entries untouched) |
| RequestSpec.BadRequest | src/request.c:64-68 | the connection is closed and the status is the given code; nothing else changes |
| HttpRequest.Connection.BadRequest | src/request.c:64-68 | clears keep-alive and sets the status, as RequestSpec.BadRequest |
| HttpRequest.Connection.ParseUrl | src/request.c:70-87 | query and path are emptied before parse_raw_url; false on its failure or on path `*` without OPTIONS; otherwise the path is decoded then simplified |
| HttpRequest.Connection.ValidateHeader | src/request.c:89-233 | the connection and request end exactly as the ordered rule list RequestSpec.Validate says |
| HttpRequest.ChainedIsRun | src/request.c:89-233 | the chain of early returns is the ordered rule list, stopping at the first failure |
| HttpRequest.Connection.ValidateVersion | src/request.c:94-106 | 505 on an unset version; HTTP/1.0 clears keep-alive unless some connection value is keep-alive; HTTP/1.1 clears it iff some value is close |
| HttpRequest.Connection.ValidateRawUri | src/request.c:108-111 | an empty raw URI is answered with 400 |
| HttpRequest.Connection.ValidateHost | src/request.c:113-126 | two host occurrences give 400; one is appended to the authority and a failed parse_hostname gives 400; none changes nothing |
| HttpRequest.Connection.ValidateHostRequired | src/request.c:128-132 | an empty host under HTTP/1.1 gives 400 |
| HttpRequest.Connection.ValidateUrl | src/request.c:134-138 | a failed request_parse_url gives 400 |
| HttpRequest.Connection.ValidateContentLength | src/request.c:140-175 | the last content-length: trailing text or a negative value give 400, an overflow 413, otherwise it becomes the content length; absent leaves it |
| HttpRequest.Connection.ValidateExpect | src/request.c:177-199 | any expect value other than 100-continue gives 417, so does 100-continue from HTTP/1.0; otherwise the flag is set when some occurrence exists |
| HttpRequest.Connection.ValidateMethod | src/request.c:207-232 | GET/HEAD with a positive length give 400, else length 0; POST without a length gives 411; other methods pass untouched |
| RequestProperties.ApplyKeepsStatus | src/request.c:64-68 | no check sets a status itself, and a failing check asks for one of 400, 411, 413, 417, 505 |
| RequestProperties.ApplyKeepAlive | src/request.c:94-106 | only the version check touches keep-alive, and only by the persistence rule |
| RequestProperties.ApplyCodes | src/request.c:89-233 | 505, 413, 417 and 411 each come from one check under one condition |
| RequestProperties.ApplyLength | src/request.c:140-175 | only the content-length and method checks set the length; an accepted content-length is the non-negative parsed value |
| RequestProperties.ApplyExpect | src/request.c:177-199 | only the expect check sets the 100-continue flag, and only when all occurrences are 100-continue over HTTP/1.1 |
| RequestProperties.RunChecksStatus | src/request.c:89-233 | a run of checks sets no status itself, and fails only with a known code |
| RequestProperties.RunChecksCodes | src/request.c:89-233 | over any run of checks, 505, 413, 417 and 411 each have their one cause |
| RequestProperties.RunChecksLength | src/request.c:140-175 | before the method rules, the length is the parsed last content-length, or unchanged without one |
| RequestProperties.RunChecksExpect | src/request.c:177-199 | after a passing run, the 100-continue flag is set exactly when expect headers exist |
| RequestProperties.KeepAliveOutcome | src/request.c:94-106 | the connection stays open iff it was open, every check passed and the persistence rule allows it: keep-alive is never turned on |
| RequestProperties.StatusOutcome | src/request.c:64-68 | a rejection sets one of the five statuses and closes the connection; an accepted request keeps its status |
| RequestProperties.UnsetVersionIs505 | src/request.c:103-105 | an unset version is answered with 505 and nothing else changes |
| RequestProperties.Only505ForUnsetVersion | src/request.c:94-106 | 505 is given iff the version is unset |
| RequestProperties.EmptyRawUriIs400 | src/request.c:108-111 | with a known version, an empty raw URI gives 400 and nothing else changes |
| RequestProperties.DuplicateHostIs400 | src/request.c:114-118 | two host occurrences anywhere give 400 and nothing else changes |
| RequestProperties.MissingHostUnder11Is400 | src/request.c:128-132 | HTTP/1.1 with no host header and an empty host buffer on entry (as request_reset leaves it) gives 400 and nothing else changes |
| RequestProperties.MissingHostSkipsHostnameParser | src/request.c:119-126 | with no host header, the outcome does not depend on parse_hostname at all |
| RequestProperties.Only413ForOverflow | src/request.c:163-172 | 413 is given only for a last content-length that overflowed to the largest off_t with ERANGE |
| RequestProperties.Only417ForExpect | src/request.c:177-199 | 417 is given only for an expect header that is not 100-continue or comes from HTTP/1.0 |
| RequestProperties.Only411ForPostWithoutLength | src/request.c:219-227 | 411 is given only to a POST with no content-length header and no length before |
| RequestProperties.ContentLengthLastWins | src/request.c:141 | only the last content-length occurrence is parsed |
| RequestProperties.ContentLengthUnderflowIs400 | src/request.c:158-161 | a negative parse gives 400, even an underflow with ERANGE |
| RequestProperties.ContentLengthTooLarge | src/request.c:163-172 | the content-length check answers 413 iff the parse overflowed to the largest off_t |
| RequestProperties.AcceptedRequestLine | src/request.c:94-132 | an accepted request has a known version, a raw URI and at most one host header; under HTTP/1.1 the host is non-empty after the host check (request_parse_url may still override it) |
| RequestProperties.AcceptedLength | src/request.c:140-232 | accepted GET/HEAD have length 0, POST has a length, others the parsed last content-length or the old one |
| RequestProperties.AcceptedExpect | src/request.c:177-199 | an accepted request with expect headers sent only 100-continue over HTTP/1.1 and is flagged; without them the flag is untouched |
| RequestScenarios.GetWithHostProceeds | src/request.c:89-233 | HTTP/1.1 GET with one host header and no content-length proceeds with length 0, keep-alive unless `connection: close`, no status |
| RequestScenarios.TwoHostsRejected | src/request.c:114-118 | two host headers give 400 and close the connection |
| RequestScenarios.PostWithoutLengthRejected | src/request.c:219-227 | POST without content-length gives 411 and closes the connection |
| RequestScenarios.OverflowingLengthRejected | src/request.c:163-172 | an overflowing content-length gives 413 and closes the connection |
| RequestScenarios.ExpectFromHttp10Rejected | src/request.c:193-197 | expect: 100-continue from an HTTP/1.0 client gives 417, even without a host header |

## Left out

- Atomicity of the reference count (`g_atomic_int_*`): the counter is modelled sequentially, since concurrent owners cannot be verified here.
- Memory management: `_http_header_free`, `http_headers_free`, `request_clear` and the slice/GString allocation calls. `HttpHeaders.Release` models destruction as emptying the store.
- GLib containers (`GQueue`, `GList`, `GString`) are sequences and integer cursors; list nodes, their addresses and buffer capacities are not modelled.
- `parse_raw_url`, `parse_hostname`, `url_decode`, `path_simplify` and `str_to_off_t` with `errno` are not part of this model; they are arbitrary functions in `RequestSpec.Collaborators`, so dot-segment normalisation (`/a/../b/./c` to `/b/c`) is not proved.
- `http_request_parser_init`/`reset`/`clear` (the tokenizer), `connection_handle_direct` (response I/O) and the `CON_TRACE`/`CON_ERROR` logging.
- `physical_init`/`reset`/`clear` (src/request.c:235-260): buffer bookkeeping with no decision logic.
- Embedded NUL bytes: `g_ascii_strncasecmp`, `strcasecmp` and `strcmp` stop at a NUL byte; the model compares whole strings.
- The HTTP method token `http_method_str` is reset but never read by the validator; recognising a method from its token is the tokenizer's job.
- HttpHeaders.Headers.Is: requires every line to carry its ": " separator (the store's invariant `Valid`), which the C code assumes without checking.
