# CORS allow-list of the backend server

The backend server (`backend/server.js`) hands the `cors` middleware an allow-list of
origins. The list decides which request origins get access-control response headers. The
server builds it once, at startup, with `parseOrigins(...envVars)`. This function:

1. keeps the truthy arguments (`filter(Boolean)`: an unset variable and the empty
   string are dropped);
2. splits each one on `,` and trims every piece with `String.prototype.trim`;
3. drops the pieces that came out empty (a second `filter(Boolean)`).

The server calls it with `FRONTEND_URL`, `API_URL` and `LOCAL_URL`, in that order.

This project models that computation as pure functions over Dafny values:

- `wrappers.dfy` has `Option`. `None` is an unset environment variable (`undefined`).
- `js_string.dfy` (module `JsString`) models the three JavaScript built-ins involved:
  - `Trim` removes ECMAScript WhiteSpace and LineTerminator code points from both ends;
  - `Split` is `split` with a one-character separator, and keeps empty pieces;
  - `Join` is `Array.prototype.join`.

  It proves the facts about them that the allow-list relies on.
- `server.dfy` (module `Server`) models the allow-list itself:
  - `ParseOrigins` keeps the three stages of the source as `PresentValues`,
    `TrimmedSegments` and `DropEmpty`;
  - `OriginsOf` is what a single argument contributes;
  - `AllowedOrigins` is the call with the three variables.

  The lemmas prove what the allow-list contains, its order and length, that duplicates
  are kept, and that it is stable under re-parsing.

The environment variables are parameters. The values they hold are given to the model
rather than read.

`backend/server.js` logs the list once (line 28). It has no empty-list warning and no
per-origin log. All matching of request origins against the list happens in the `cors`
library.

## Model

| member | source | states |
|---|---|---|
| JsString.WhitespaceIff | backend/server.js:11 | the characters `trim` strips are exactly the ECMAScript WhiteSpace and LineTerminator code points |
| JsString.Trim | backend/server.js:11 | `url.trim()` never lengthens its input, and its result neither starts nor ends with whitespace |
| JsString.TrimStrips | backend/server.js:11 | `trim(s)` is `s` with a run of whitespace cut off each end, and every cut character is whitespace |
| JsString.TrimIsUnique | backend/server.js:11 | when `s` is a trimmed `r` padded with whitespace on both sides, `trim(s)` is `r`; so `trim` is fully characterised |
| JsString.TrimPadded | backend/server.js:11 | trimming whitespace + r + whitespace gives back a trimmed `r` |
| JsString.TrimFixedIff | backend/server.js:11 | `trim(s) == s` holds exactly when `s` has no leading or trailing whitespace (both directions) |
| JsString.TrimIdempotent | backend/server.js:11 | trimming twice is trimming once |
| JsString.TrimEmptyIff | backend/server.js:11 | `trim(s)` is empty exactly when `s` is all whitespace (both directions) |
| JsString.TrimChars | backend/server.js:11 | `trim` introduces no character; in particular it introduces no comma |
| JsString.Split | backend/server.js:11 | `v.split(",")` gives one piece more than there are commas; no piece contains a comma; joining the pieces with commas restores `v` |
| JsString.SplitJoin | backend/server.js:11 | `split` inverts `join` on a non-empty list of comma-free pieces |
| JsString.SplitCovers | backend/server.js:11 | every non-comma character of `v` lands in some piece of `v.split(",")` |
| JsString.SplitTwo | backend/server.js:11 | "x,y" with comma-free x and y splits into exactly [x, y] |
| JsString.JoinContains | backend/server.js:11 | every character of a piece occurs in the comma-joined string; `join` does not occur in the source, it is the inverse that `Split`'s contract and the re-parse property are stated against |
| Server.PresentValues | backend/server.js:10 | the first `filter(Boolean)` keeps exactly the arguments that are set and non-empty, and never more values than there are arguments |
| Server.TrimAll | backend/server.js:11 | `.map(url => url.trim())` keeps the number of pieces, and every piece is trimmed |
| Server.TrimmedSegments | backend/server.js:11 | after the `flatMap`, every piece is trimmed and holds no comma |
| Server.DropEmpty | backend/server.js:12 | the second `filter(Boolean)` keeps exactly the non-empty strings, and never adds any |
| Server.OriginsOf | backend/server.js:10-12 | one argument's contribution: nothing when unset or empty, otherwise at most one entry per comma-separated piece, each non-empty and trimmed |
| Server.ParseOrigins | backend/server.js:8-12 | every allow-list entry is non-empty, trimmed and comma-free |
| Server.AllowedOrigins | backend/server.js:14-18 | the server's list is FRONTEND_URL's origins, then API_URL's, then LOCAL_URL's, each as if parsed alone |
| Server.PresentValuesAppend | backend/server.js:10 | the first filter distributes over concatenation of the arguments |
| Server.TrimmedSegmentsAppend | backend/server.js:11 | `flatMap` distributes over concatenation of the values |
| Server.DropEmptyAppend | backend/server.js:12 | the final filter distributes over concatenation |
| Server.DropEmptyKeeps | backend/server.js:12 | a list with no empty string passes the final filter unchanged |
| Server.DropEmptyNone | backend/server.js:12 | the final filter yields nothing exactly when every string is empty (both directions) |
| Server.ParseOriginsAppend | backend/server.js:8-12 | parsing `xs ++ ys` gives the entries of `xs` followed by those of `ys`; argument order is kept |
| Server.ParseOriginsSingle | backend/server.js:8-12 | one argument parsed alone contributes `OriginsOf` it: nothing when unset or empty, otherwise its non-empty trimmed pieces |
| Server.ParseOriginsCons | backend/server.js:8-12 | the first argument's entries come before those of the remaining arguments |
| Server.ParseOriginsEntries | backend/server.js:11-12 | every entry is non-empty, is left unchanged by `trim`, and holds no comma |
| Server.TrimAllMembers | backend/server.js:11 | a string is among the trimmed pieces exactly when it is the trim of some piece |
| Server.OriginsOfMembers | backend/server.js:9-12 | one argument contributes `e` exactly when `e` is non-empty and the trim of one of its comma-separated pieces |
| Server.ParseOriginsMembers | backend/server.js:8-12 | soundness and completeness: `e` is on the list exactly when it is a non-empty trimmed comma-separated piece of some set argument |
| Server.OriginsOfEmptyIff | backend/server.js:9-12 | an argument contributes nothing exactly when it is unset or consists only of commas and whitespace, so unset, empty and blank values add nothing |
| Server.DropEmptyTrimAllLength | backend/server.js:11-12 | trimming then dropping empties leaves one string per piece that is non-blank |
| Server.OriginsOfLength | backend/server.js:9-12 | one argument contributes one entry per comma-separated piece that is non-empty once trimmed |
| Server.ParseOriginsLength | backend/server.js:8-12 | no deduplication: the list has exactly one entry per non-blank piece over all arguments |
| Server.Reparse | backend/server.js:8-12 | well-formed entries joined with commas and parsed as one argument come back unchanged |
| Server.OriginsOfJoined | backend/server.js:11-12 | one argument holding comma-joined well-formed entries contributes exactly those entries |
| Server.JoinedSplitsBack | backend/server.js:10-11 | comma-joined well-formed entries are truthy and split back into the entries |
| Server.EntriesPassThrough | backend/server.js:11-12 | trimming and dropping empties leaves a list of well-formed entries unchanged |
| Server.TrimAllFixes | backend/server.js:11 | trimming already-trimmed pieces changes nothing |
| Server.ParseIdempotent | backend/server.js:8-12 | joining the allow-list with commas and parsing it again gives the same allow-list |
| Server.DuplicatesKept | backend/server.js:14-18 | the same origin in FRONTEND_URL and API_URL is listed twice |
| Server.TwoOrigins | backend/server.js:14-18 | FRONTEND_URL "a, b" with the other variables unset gives the list [a, b], in order, without the whitespace |
| Server.OriginsOfTwo | backend/server.js:11-12 | the value "a, b" alone contributes a and then b |
| Server.NoCommaInWhitespace | backend/server.js:11 | a comma is not whitespace, so `trim` never removes one |

## Left out

- The `cors` middleware and its options (`backend/server.js:20-26`) are not modelled. That covers request-origin matching, preflight handling, the allowed methods and headers, credentials, and omitting `Access-Control-Allow-Origin` for an origin not on the list. This logic lives in the `cors` library, which is not part of this model.
- Reading `process.env` (`backend/server.js:15-17`) is not modelled. The three values are parameters.
- The startup log of the allow-list (`backend/server.js:28`) and the other console output (lines 43, 46, 60) are left out as I/O.
- The JSON and URL-encoded body parsers (`backend/server.js:30-34`) are left out. They are configuration of library middleware.
- The database connection and process exit on failure (`backend/server.js:36-48`) are left out as I/O.
- The routes (`backend/server.js:50-55`) are left out. `app/routes/turorial.routes` is not part of this model.
- `listen` (`backend/server.js:57-61`) is left out as I/O.
- JavaScript strings are UTF-16 code-unit sequences, while the model's strings are sequences of Unicode characters. The difference is irrelevant here: the separator and every whitespace character `trim` removes lie in the Basic Multilingual Plane.
