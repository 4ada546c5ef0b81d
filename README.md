# Tundra: URL splitting, response parsing and tag stripping

Tundra is a small web browser written in Rust. Given one `http://` URL it
splits the URL into host, port, path and fragment (`parse_address`), fetches
the page over a plain TCP socket, cuts the received response into a header
map and a body (`request`), and prints the body with its markup tags removed
(`show`). This project models those three pieces of `src/main.rs` in Dafny
and proves what they promise.

- `rust_str.dfy` (module `RustStr`): the parts of Rust's `str` API the code
  relies on — `find`, `split`, `splitn`, `rsplitn`, `trim`, `to_lowercase` —
  over `seq<char>`, with their round trips (`Join` after `Split`) and the
  facts about where they cut.
- `url_parse.dfy` (module `UrlParse`): `parse_address` as a pure function
  built from three steps that follow the source's blocks: the authority
  before the first `/`, the port after the last `:`, the fragment after the
  last `#`.
- `http_response.dfy` (module `HttpResponse`): the response-reading block of
  `request`. `ParsedResponse` is its specification as a function;
  `ParseResponse` is the block as written, a method that removes the status
  line and then inserts the header fields in a `for` loop, proved equal to
  it. The loop is modelled by `InsertHeaders`, which takes the line parser
  (`HeaderField`, the `splitn`/`trim`/`to_lowercase` of one line) as a
  parameter: the facts about the map hold for any parser, and the ones
  about `:` and normalisation follow for `HeaderField`.
- `show_text.dfy` (module `ShowText`): `show` as a method with the
  `in_angle` flag and a loop, proved equal to the function `Strip`, about
  which the tag-stripping properties are proved.
- `wrappers.dfy` (module `Wrappers`): `Option` and `Result`.

Every panic of the source is an error value here: a URL that is not
`http://` gives `UnsupportedScheme`; a response without a blank line gives
`MissingBody` (the out-of-bounds `response_vec[1]`); a status line with no
space or with one space gives `MissingStatus` or `MissingExplanation`
(`http_status_line[1]` and `[2]`); a status other than `200` gives
`ServerError(status, explanation)` (the failed `assert!`); a header line
without a `:` gives `MalformedHeader(line)` (`header_line[1]`).

The only markup handling in `src/main.rs` is the one-flag tag stripping of
`show`, and that is what is modelled.

## Model

| member | source | states |
|---|---|---|
| `RustStr.Find` | src/main.rs:103 | the index found leaves room for the separator after it |
| `RustStr.FindSpec` | src/main.rs:103 | the index found is the leftmost occurrence of the separator; `None` means it occurs nowhere |
| `RustStr.Split` | src/main.rs:103 | `split` always yields at least one piece |
| `RustStr.SplitHead` | src/main.rs:104 | piece 0 of `split` is the text before the leftmost separator, or all of it |
| `RustStr.SplitAt` | src/main.rs:105 | splitting at a first piece yields that piece followed by the split of what comes after the separator |
| `RustStr.JoinSplit` | src/main.rs:103 | joining the pieces of `split` with the separator gives back the text |
| `RustStr.SplitPiecesFree` | src/main.rs:108 | no piece of `split` contains the separator |
| `RustStr.SplitN` | src/main.rs:110 | `splitn(n)` yields at most `n` pieces, and at least one when `n > 0` |
| `RustStr.JoinSplitN` | src/main.rs:110 | joining the pieces of `splitn` gives back the text |
| `RustStr.SplitNTwoChar` | src/main.rs:62 | `splitn(2, c)` on a text holding `c` yields two pieces cut at the first `c` |
| `RustStr.SplitNTwoCharCount` | src/main.rs:121 | `splitn(2, c)` yields two pieces exactly when `c` occurs, else one |
| `RustStr.RSplitN` | src/main.rs:70 | `rsplitn(n)` yields at most `n` pieces, and at least one when `n > 0` |
| `RustStr.RSplitNTwoChar` | src/main.rs:70 | `rsplitn(2, c)` on a text holding `c` yields the text after the last `c`, then the text before it |
| `RustStr.LastIndex` | src/main.rs:78 | the index found holds the last occurrence of the character; `None` exactly when it does not occur |
| `RustStr.Trim` | src/main.rs:122 | the result neither starts nor ends with whitespace and is `s` with only whitespace dropped from both ends |
| `RustStr.Lower` | src/main.rs:123 | lower-casing keeps the length |
| `RustStr.LowerSpec` | src/main.rs:123 | each ASCII upper-case letter becomes its lower-case letter, so none is left; every other character is kept, and whitespace stays exactly where the input had it |
| `UrlParse.SchemeRest` | src/main.rs:55-57 | the text kept is what follows `http://` up to the next `://`, or to the end |
| `UrlParse.SplitAuthority` | src/main.rs:59-65 | with a `/`, the text is authority, `/`, rest, with no `/` in the authority; without one the rest is `/` |
| `UrlParse.SplitPort` | src/main.rs:67-73 | with a `:`, host `:` port is the authority and the port holds no `:`; without one the port is `80` |
| `UrlParse.SplitFragment` | src/main.rs:75-81 | path and fragment together are `/` and the text; the path starts with `/`; the fragment is empty without a `#`, else `#` and the text after the last `#` |
| `UrlParse.ParseAddress` | src/main.rs:50-84 | fails exactly when the URL does not start with `http://`; the host has no `/`; the path starts with `/`; with no `/` after the scheme the path is `//` and the fragment empty |
| `UrlParse.HostAndPort` | src/main.rs:61-73 | for any URL whose authority (text before the first `/`) is given: no `:` means host = authority and port `80`; otherwise authority = host `:` port with no `:` in the port |
| `UrlParse.PathAndFragment` | src/main.rs:75-81 | for any URL whose text after the first `/` is given: no `#` means path = `/` + that text and no fragment; otherwise path + fragment = `/` + that text and the fragment is `#` then a `#`-free tail |
| `HttpResponse.HeaderField` | src/main.rs:121-123 | a header line yields a field exactly when it holds a `:` |
| `HttpResponse.HeaderFieldAt` | src/main.rs:121-123 | the cut is at the first `:`, so the value keeps any later colons; both sides are trimmed and lower-cased |
| `HttpResponse.HeaderFieldNormalized` | src/main.rs:122-123 | name and value neither start nor end with whitespace and have no ASCII upper-case letter |
| `HttpResponse.InsertHeaders` | src/main.rs:120-124 | the loop, whatever the line parser, can fail only on one of its lines that does not parse |
| `HttpResponse.HeaderMap` | src/main.rs:118-124 | building the header map fails only on one of the header lines, and that line has no `:` |
| `HttpResponse.InsertHeadersSucceeds` | src/main.rs:120-124 | the loop completes exactly when every header line parses |
| `HttpResponse.InsertHeadersFails` | src/main.rs:120-122 | otherwise it fails on the first line that does not parse, reporting that line |
| `HttpResponse.InsertHeadersKeys` | src/main.rs:118-124 | a name is in the map exactly when it was there before or some line gives it |
| `HttpResponse.InsertHeadersKeeps` | src/main.rs:120-124 | a name no line gives keeps its earlier value |
| `HttpResponse.InsertHeadersLastWins` | src/main.rs:120-124 | the value of a name is the value on the last line that gives it |
| `HttpResponse.InsertHeadersNormalized` | src/main.rs:120-124 | when the map and every parsed field start out trimmed and lower-case, so is every name and value of the resulting map |
| `HttpResponse.HeaderMapSucceeds` | src/main.rs:120-124 | the header map is built exactly when every header line holds a `:` |
| `HttpResponse.HeaderMapFails` | src/main.rs:120-122 | otherwise building it fails on the first line without a `:` |
| `HttpResponse.HeaderMapNormalized` | src/main.rs:118-124 | every name and every value in the header map is trimmed and has no ASCII upper-case letter |
| `HttpResponse.StatusFieldsOf` | src/main.rs:110-113 | a status line fails only for a missing status or a missing explanation |
| `HttpResponse.StatusFields` | src/main.rs:110-113 | the status line cuts at its first two spaces into version, status and an explanation that may hold more spaces |
| `HttpResponse.ParsedHead` | src/main.rs:108-124 | reading the head never fails for want of a body, and a server error never reports status `200` |
| `HttpResponse.ParsedResponse` | src/main.rs:103-124 | a server error never reports status `200`; a malformed header line is one without a `:` |
| `HttpResponse.ParseResponse` | src/main.rs:103-126 | the block as written, removing the status line and inserting the fields in a loop, gives exactly `ParsedResponse` |
| `HttpResponse.MissingBodyIff` | src/main.rs:103-105 | parsing fails for want of a body exactly when the response has no blank line `\r\n\r\n` |
| `HttpResponse.BodyBetweenSeparators` | src/main.rs:103-105 | with a blank line there is a body, and it is the text after the first blank line up to the second one, or to the end |
| `HttpResponse.StatusLineOfHead` | src/main.rs:104-110 | the status line is the first line of the text before the first blank line |
| `HttpResponse.StatusMustBeOk` | src/main.rs:103-124 | a status other than `200` fails with that status and its explanation; with status `200` the result is the header map of the lines after the status line together with the body (the text after the first blank line up to the next), or that header map's failure |
| `HttpResponse.OkResponseSucceeds` | src/main.rs:110-124 | a response with status `200` is accepted exactly when every line after the status line holds a `:` |
| `HttpResponse.StatusLineWithoutSpace` | src/main.rs:110-112 | a status line with no space fails for want of a status |
| `HttpResponse.StatusLineWithOneSpace` | src/main.rs:110-113 | a status line with one space fails for want of an explanation, even with status `200` |
| `HttpResponse.HeadersAfterStatusLine` | src/main.rs:116-124 | the header map is built from the lines after the status line only |
| `HttpResponse.NoHeaderLines` | src/main.rs:116-124 | a head that is only the status line gives an empty header map |
| `ShowText.Strip` | src/main.rs:141-152 | the printed text holds no `<` or `>` and is no longer than the input |
| `ShowText.Show` | src/main.rs:141-152 | the loop with the `in_angle` flag prints exactly `Strip(body, false)`, which holds no `<` or `>` |
| `ShowText.StripIsSubsequence` | src/main.rs:143-151 | the printed text is a subsequence of the input |
| `ShowText.StripPlainText` | src/main.rs:148-149 | input without `<` or `>` is printed unchanged |
| `ShowText.ShowIdempotent` | src/main.rs:141-152 | stripping the printed text again changes nothing |
| `ShowText.StripConcat` | src/main.rs:143-151 | the output for `a + b` is the output for `a`, then the output for `b` from the flag `a` leaves |
| `ShowText.AngleAfterAppend` | src/main.rs:144-147 | `<` sets the flag, `>` clears it, any other character keeps it |
| `ShowText.InsideTag` | src/main.rs:144-148 | while the flag is set and no `>` comes, nothing is printed and the flag stays set |
| `ShowText.TagDropped` | src/main.rs:144-147 | tags do not nest: everything from a `<` to the first `>` is dropped, even with another `<` in between |
| `ShowText.StrayCloseIgnored` | src/main.rs:146-147 | a `>` read while no tag is open is dropped and changes nothing else |
| `ShowText.UnclosedTagDropsRest` | src/main.rs:144-148 | after a `<` that is never closed nothing more is printed |

## Left out

- The socket work of `request` (src/main.rs:86-101, 126-138): connecting, sending the GET request, reading to the end, and `exit(1)` with a message on failure. The model starts from the response text already received.
- `String::from_utf8_lossy` (src/main.rs:101): the bytes are taken to be text already, so invalid UTF-8 replacement is not modelled.
- `show` writes with `print!`; the model returns the printed text instead.
- `main`, argument handling, `browse` and the empty `start_tundra_app` (src/main.rs:25-48): process plumbing.
- `render`, `set_widgets` and `widget_ids!` (src/main.rs:154-313): the window, event loop, fonts and widget layout, all foreign library calls with floating-point coordinates.
- The panic messages (`"Tundra only supports http"`, `"Server error…"`) are reduced to the error constructors; only the status and explanation are kept.
- RustStr.Lower: lower-cases only the ASCII letters `A`-`Z`; Rust's `to_lowercase` also maps non-ASCII letters (some to several characters), which the model leaves unchanged.
- The separators `":"` and `"#"` of `rsplitn` are one-character string patterns in the source; `RSplitN` takes the character itself, which cuts at the same places. `splitn` keeps the one-character string `[c]` as its pattern.
