# Derpibooru relay bot: a Dafny model of the message handler

The bot watches a chat channel for messages that start with `!derpi`. It cuts the
first seven characters off such a message and splits the rest on commas into
search tags. It then asks the Derpibooru image search for matching images. For
each result, in the order the search yields them, it downloads the image's
"large" rendition and uploads the bytes to the channel as a file named
`<id>.<format>`.

This project models that handler (`on_message`) and proves what it does:

- `strings.dfy`, module `Strings`: the Python builtins it uses, as functions.
  These are `str.split` on one character, with `str.join` as its inverse, and
  `str()` of an integer, with a parser as its inverse.
- `command.dfy`, module `Command`: the trigger test, the `[7:]` slice and the
  tag list.
- `relay.dfy`, module `Relay`: search results, the attachment filename and the
  per-result loop. Every download and upload is recorded as an `Effect` in a
  trace, so the loop is a method that returns that trace. A pure
  `RelayTrace` function specifies the trace, and lemmas prove its
  properties.
- `handler.dfy`, module `Handler`: `OnMessage`, which runs the whole pipeline.
  The image search and the download are function parameters. The module
  also has three client methods that call the handler on example messages and state
  the resulting trace.

Two facts about `main.py` that a reader might not expect:
- `main.py` never strips the tags. Its own comment at line 43 shows
  `"pancake"` where the code yields `" pancake"`. `Command.TagsNotTrimmed`
  states the untrimmed result.
- The code removes seven characters whatever the seventh is, so `!derpix` and
  `!derpi,safe` are handled too (`Command.SeparatorNotChecked`).

## Model

| member | source | states |
|---|---|---|
| `Strings.Split` | main.py:45 | Python's `s.split(",")`: the pieces between commas in order, untrimmed, and never an empty list (`""` splits to `[""]`) |
| `Strings.JoinSplit` | main.py:45 | joining the pieces of `s.split(",")` with `","` gives back `s` exactly, so nothing is trimmed or dropped |
| `Strings.SplitJoin` | main.py:45 | for a non-empty list of pieces without commas, splitting their join gives back the list, so split and join are inverses |
| `Strings.SplitPartsExcludeSeparator` | main.py:45 | no piece of a split contains the separator |
| `Strings.SplitCount` | main.py:45 | a split has exactly one more piece than the string has separators, so there is always at least one piece |
| `Strings.NatToDecimal` | main.py:92 | `str(n)` of a non-negative integer is a non-empty string of decimal digits that starts with `0` only for zero |
| `Strings.DecimalRoundTrip` | main.py:92 | reading back the digits of `str(n)` gives `n` |
| `Strings.DecimalOfValue` | main.py:92 | every digit string without a leading zero is `str` of its value, so `str` is a bijection onto canonical digit strings |
| `Strings.IntToDecimal` | main.py:92 | `str(id)` is non-empty and starts with `-` exactly when the id is negative |
| `Strings.IntRoundTrip` | main.py:92 | parsing `str(id)` gives back `id`, and `str(id)` contains no dot |
| `Command.IsSearchCommand` | main.py:29 | `content.startswith("!derpi")` holds exactly when the message is at least six characters long and agrees with `!derpi` character by character |
| `Command.RawTags` | main.py:38 | the raw tag string is the message without its first seven characters, and it is empty when the message has at most seven characters |
| `Command.Tags` | main.py:38-45 | the tag list has one more entry than there are commas in the raw tag string, joins back to that string, contains no comma in any tag, and is `[""]` for a message of at most seven characters |
| `Command.CommandLayout` | main.py:29-38 | a handled message of at least seven characters is `!derpi`, then one character of any kind, then the raw tag string |
| `Command.TagsNotTrimmed` | main.py:33-45 | `!derpi twilight sparkle, pancake` yields the tags `"twilight sparkle"` and `" pancake"`, with the leading space kept |
| `Command.SeparatorNotChecked` | main.py:29-45 | `!derpix` is handled and searches with `[""]`; in `!derpi,safe` the comma is cut off and the tags are `["safe"]` |
| `Relay.Filename` | main.py:92 | the filename `str(id) + "." + format` is the id's digits, one dot and the format, and its first dot is the one right after the id |
| `Relay.FilenameRoundTrip` | main.py:92 | the filename `str(id) + "." + format` determines both: splitting it at its first dot and parsing the prefix gives back the id and the format |
| `Relay.FilenameExample` | main.py:92 | id 12345 with format `png` gives `12345.png`, and id 1 with `jpg` gives `1.jpg` |
| `Relay.LargeOnly` | main.py:75 | the lookup `representations["large"]` depends on the "large" entry alone: adding or replacing any other size neither changes whether it succeeds nor the URL it yields, so no fallback size is tried |
| `Relay.LargeStored` | main.py:75 | storing a URL under "large" makes the lookup succeed and yield exactly that URL, whatever other sizes the image has |
| `Relay.Processed` | main.py:64-75 | the number of results handled is the index of the first result without a "large" URL, or the number of results when every result has one |
| `Relay.StepEffects` | main.py:75-103 | relaying one image downloads exactly its "large" URL and uploads exactly its attachment |
| `Relay.RelayTraceLength` | main.py:64-103 | relaying a run of images produces exactly two effects per image, including none for an empty run |
| `Relay.RelayTraceAt` | main.py:64-103 | the relay trace has two effects per image; the i-th image is downloaded and then uploaded before the next image is touched |
| `Relay.RelayUploads` | main.py:64-103 | the uploads in the relay trace are exactly one per image and in image order; each is the image's filename with the bytes from its "large" URL |
| `Relay.RelayFetches` | main.py:64-76 | the downloads in the relay trace are exactly the images' "large" URLs, one per image and in image order |
| `Relay.RelayResults` | main.py:64-103 | the loop's trace is the relay of the results before the first one without a "large" URL; it reports a lookup error at that index, or completion when there is none |
| `Relay.UploadsUpToFirstMissing` | main.py:64-103 | for any results, the uploads are one per result before the first missing "large" URL, in order and with that result's file; later results are never uploaded |
| `Relay.FetchesUpToFirstMissing` | main.py:64-76 | for any results, the downloads are one per result before the first missing "large" URL, in order and each that result's "large" URL; later results are never downloaded |
| `Relay.StopsEarlyIffMissing` | main.py:64-75 | the loop stops before the end of the results exactly when some result lacks the "large" key |
| `Handler.OnMessage` | main.py:27-103 | a message not starting with `!derpi` has no effect at all; otherwise the handler searches once with the message's tags and then relays the results as `RelayResults` does |

## Left out

- The chat client, its startup handler with its log line, `client.run` and the embedded token (main.py:17, 21-23, 106): framework lifecycle and configuration, with no logic.
- The search call's result cap of three (main.py:15, 18). The cap and the result order are enforced inside the derpibooru library, which is not part of this model. The results are an arbitrary sequence given by the `search` parameter.
- The HTTP download (main.py:75-76) is the `fetch` parameter, a total function from URL to bytes. The code reads `response.content` without checking the status, so an HTTP error page's body is uploaded under the image's filename and the loop goes on; the total `fetch` covers that case. Connection-level download errors, search errors and upload errors are not modelled. Each would end the loop in the same way as the missing-key lookup error, which is modelled.
- The in-memory byte buffer, the attachment object and the channel send (main.py:97-103): an upload is an `Upload` effect carrying the filename and the bytes.
- `async`/`await`: the handler's steps are sequential within one message, and interleaving between messages belongs to the chat framework.
- Python's `str.split` is modelled only for the one-character separator the handler uses.
