# Vanity-address search core, modelled in Dafny

This project models the pure string core of `generate_lucky_wallet_pro_dual.py`, a vanity-address search for Ethereum-style accounts. It covers four parts:

- **Normalisation.** The address loses its `0x` marker and is lower-cased.
- **Matching.** Two independent first-hit scans run over an ordered pattern list. One uses `startswith` and one uses `endswith`, and each stops at its first hit.
- **Record formatting.** Each match renders as `<pattern> (<side>)`. The renderings are joined with ` & ` into a five-line block closed by 50 dashes.
- **Accounting.** The main loop keeps a running count of consumed results and appends one block per match.

The pattern list is a parameter, so every property holds for any list. The configured `['88888888', '8888888', '888888']` appears as `Instances.Patterns`.

Modules:

- `Wrappers`: `Option`.
- `Text`: the Python string operations with Python's meaning. These are `startswith`, `endswith`, `lower`, `join`, `split` and `c * n`.
- `Matcher`: the two scans (lines 22-36).
- `Worker`: one attempt (lines 18-43), with the generated identity taken as an input.
- `Recorder`: `save_wallet`'s text (lines 45-55), plus parsers that invert it.
- `Search`: the per-result loop of `main` (lines 74-82).
- `Instances`: the configured list and concrete bodies.

Key generation, the address, the private key and the mnemonic are opaque inputs: an `Identity` of three strings. The output file is modelled as the sequence of blocks appended to it.

## Model

| member | source | states |
|---|---|---|
| `Worker.Normalize` | generate_lucky_wallet_pro_dual.py:20 | The body is the address minus its first two characters, each lower-cased. Its length is \|address\| − 2, or the body is empty when the address is shorter than two characters. |
| `Worker.NormalizedIsLower` | generate_lucky_wallet_pro_dual.py:20 | The body has no upper-case letter, and lower-casing it again leaves it unchanged. |
| `Worker.NormalizeIgnoresCase` | generate_lucky_wallet_pro_dual.py:19-20 | Two addresses of equal length that differ only in letter case, or only in their two-character marker, have the same body. So a checksummed address matches like its lower-case form. |
| `Text.LowerIdempotent` | generate_lucky_wallet_pro_dual.py:20 | Lower-casing produces no upper-case letter and is idempotent. |
| `Matcher.FirstHitFrom` | generate_lucky_wallet_pro_dual.py:26-29 | A scan from index k returns an index that hits, with no hit between k and it. It returns nothing exactly when no pattern from k on hits. |
| `Matcher.FirstHit` | generate_lucky_wallet_pro_dual.py:33-36 | The reported index is a hit with no earlier hit. Nothing is reported exactly when no pattern hits that side. |
| `Matcher.Scan` | generate_lucky_wallet_pro_dual.py:26-29 | One scan reports at most one entry, on its own side. It reports none exactly when no pattern hits that side, and otherwise the pattern at the first index that hits. |
| `Matcher.FindMatches` | generate_lucky_wallet_pro_dual.py:22-36 | There are at most two entries: one per side that has a hit, and none for a side without one. Each entry is a list member that hits its side of the body. Any Prefix entry comes before any Suffix entry, so there is never a second entry of the same side. |
| `Matcher.CheckBody` | generate_lucky_wallet_pro_dual.py:22-36 | The program's two append-and-break loops compute exactly the reference match list. |
| `Matcher.ReportedIsFirstHit` | generate_lucky_wallet_pro_dual.py:24-29 | Soundness and the first-hit rule: each reported pattern sits at an index that hits its side. No earlier index hits that side. |
| `Matcher.FirstHitIsReported` | generate_lucky_wallet_pro_dual.py:31-36 | Completeness: the first hit of a side is reported, and it is that side's only entry. |
| `Matcher.LongestHit` | generate_lucky_wallet_pro_dual.py:25-29 | With a list in non-increasing length order, every pattern hitting the reported side is no longer than the reported one. It is also itself a prefix (or suffix) of the reported pattern, so first hit is longest hit. |
| `Matcher.SidesIndependent` | generate_lucky_wallet_pro_dual.py:26-36 | Two bodies that agree on every `startswith` test get the same Prefix entry. The same holds for `endswith` and the Suffix entry. Each scan ignores the other end. |
| `Matcher.EmptyListNeverMatches` | generate_lucky_wallet_pro_dual.py:38-43 | An empty pattern list yields no matches. |
| `Worker.Attempt` | generate_lucky_wallet_pro_dual.py:19-43 | The result is `None` exactly when no pattern is a prefix or suffix of the body, and always `None` for an empty list. Otherwise it carries the unchanged address, key and mnemonic, plus the match list of the body. |
| `Worker.UpperCasePatternNeverMatches` | generate_lucky_wallet_pro_dual.py:20-35 | A pattern containing an upper-case letter is never reported, because the body is lower-cased first. |
| `Recorder.Render` | generate_lucky_wallet_pro_dual.py:48 | A rendering `<pattern> (<side>)` reads back as the match it renders: the pattern, then a nine-character tag naming the side. |
| `Recorder.Details` | generate_lucky_wallet_pro_dual.py:48 | No matches give the empty text and one match gives its rendering. Two matches give the first rendering, ` & `, then the second. |
| `Recorder.RenderRoundTrip` | generate_lucky_wallet_pro_dual.py:48 | `<pattern> (<side>)` parses back to the match, and only the rendering of a match parses to it. |
| `Recorder.DetailsCons` | generate_lucky_wallet_pro_dual.py:48 | The detail text of a single match is its rendering. With more matches, it is the first rendering, ` & `, then the rest's detail text. |
| `Recorder.SingleMatchHasNoSeparator` | generate_lucky_wallet_pro_dual.py:48 | One match whose pattern has no `&` gives a detail text that is its rendering and contains no ` & `. |
| `Recorder.DetailsRoundTrip` | generate_lucky_wallet_pro_dual.py:48 | If no pattern holds `&`, the detail text parses back to the original match list, in order. |
| `Recorder.ParseDetailsExact` | generate_lucky_wallet_pro_dual.py:48 | Any text that parses as details is exactly the detail text of the parsed matches. |
| `Recorder.DetailsSingleLine` | generate_lucky_wallet_pro_dual.py:48 | The detail text has no newline when no pattern has one. |
| `Recorder.Block` | generate_lucky_wallet_pro_dual.py:51-55 | The block is the five labelled lines, each ended by a newline. With single-line values, splitting it on newlines gives exactly `Address: …`, `Private Key: …`, `Mnemonic: …`, `Match Details: …` and 50 dashes, in that order, then an empty tail. |
| `Recorder.BlockRoundTrip` | generate_lucky_wallet_pro_dual.py:51-55 | With single-line values, splitting the block on newlines and dropping the labels recovers each value verbatim. |
| `Recorder.Format` | generate_lucky_wallet_pro_dual.py:45-55 | When the address, key and mnemonic are single lines and no pattern holds a newline, the record reads back as a block holding those three values and the match list's detail text. |
| `Recorder.ParseBlockExact` | generate_lucky_wallet_pro_dual.py:51-55 | Any text that parses as a block has single-line values and is rebuilt exactly by the block layout. |
| `Recorder.RecordRoundTrip` | generate_lucky_wallet_pro_dual.py:45-55 | The conditions: the address, key and mnemonic are single lines, and no pattern holds a newline or `&`. Then a saved record parses back to the same address, key, mnemonic and match list. |
| `Recorder.ParseRecordExact` | generate_lucky_wallet_pro_dual.py:45-55 | Any text that parses as a record is exactly the text `save_wallet` writes for the parsed values. |
| `Search.SavedCount` | generate_lucky_wallet_pro_dual.py:80-82 | One block is written per match and never more blocks than results. |
| `Search.ConsumeAll` | generate_lucky_wallet_pro_dual.py:78-82 | After consuming results in arrival order, the count has grown by exactly the number of results, whether they matched or not. The file has gained exactly the matches' records, in arrival order. |
| `Search.BatchesCompose` | generate_lucky_wallet_pro_dual.py:74-82 | Consuming one round after another is the same as consuming their concatenation. So the count after any number of rounds, or after a stop between two results of a round, equals the results consumed. |
| `Search.ArrivalOrderKeepsCount` | generate_lucky_wallet_pro_dual.py:76-79 | Reordering a round's results, as `imap_unordered` may, leaves the count and the number of matches unchanged. The file gains the same records, reordered. |
| `Search.CollectRound` | generate_lucky_wallet_pro_dual.py:76-82 | The program's `for result in results` loop adds exactly the round's length to the count. It appends exactly the round's matches' records, one per match. |
| `Instances.PatternsDescending` | generate_lucky_wallet_pro_dual.py:9 | The configured list is in non-increasing length order, so the longest-hit rule applies to it. |
| `Instances.BothEnds` | generate_lucky_wallet_pro_dual.py:26-36 | For the body `888888881234888888`, the result is `[88888888 Prefix, 888888 Suffix]`. |
| `Instances.PrefixOnly` | generate_lucky_wallet_pro_dual.py:26-36 | For the body `888888889999`, the result is only `[88888888 Prefix]`. |
| `Instances.NormalizeExample` | generate_lucky_wallet_pro_dual.py:20 | A mixed-case address normalises to its lower-case body without `0x`. |
| `Instances.MixedCaseBody` | generate_lucky_wallet_pro_dual.py:22-36 | That body matches at both ends. |
| `Instances.FullAttempt` | generate_lucky_wallet_pro_dual.py:18-43 | An attempt on a mixed-case address reports both ends and keeps the address exactly as given. |
| `Instances.RenderedLongPrefix` | generate_lucky_wallet_pro_dual.py:48 | The match `88888888` at the Prefix end renders as `88888888 (Prefix)`. |
| `Instances.RenderedShortSuffix` | generate_lucky_wallet_pro_dual.py:48 | The match `888888` at the Suffix end renders as `888888 (Suffix)`. |
| `Instances.TwoSidedDetails` | generate_lucky_wallet_pro_dual.py:48 | A two-sided match saves the detail line `88888888 (Prefix) & 888888 (Suffix)`. |

## Left out

- Key, address and mnemonic generation (`Account.create_with_mnemonic`, `enable_unaudited_hdwallet_features`, `account.key.hex()`) is foreign cryptography. The identity is an input of three opaque strings.
- The file append (`open(OUTPUT_FILE, 'a')`) and the output file name are I/O. The file is the sequence of blocks written to it.
- Every `print` is console output: the match notification, the start-up banner and the progress line.
- `multiprocessing.Pool`, `cpu_count` and its fallback of 4, the round size `cpu_cores * 2000`, `chunksize=500`, and `terminate`/`join` are process plumbing. A round is the sequence of its results in arrival order.
- `time.time()` and the floating-point rate are clock and floating point.
- `KeyboardInterrupt` and the generic exception handler only end the loop. Only stops that fall between two results are modelled: the state is then that of `Search.BatchesCompose` on a prefix of the round.
- A stop or a write error inside `save_wallet` is not modelled. An interrupt or `OSError` can arrive after `total_count += 1` (line 79) but before or during the writes at lines 50-55. A match already counted can then be missing from the file, or its block can be cut short, and its notification is not printed.
- `Worker.Normalize`: lower-cases ASCII letters only, not Python's full Unicode `str.lower()`. Addresses are hexadecimal ASCII, so the body is the same for every real address.
- `Recorder.SingleMatchHasNoSeparator`: requires the pattern to have no `&` at all, which is stronger than having no ` & `. The pattern `x &` has no ` & `, yet it renders as `x & (Prefix)`, which contains one.
- `Recorder.RecordRoundTrip`: holds only for single-line values and patterns without newline or `&`. Other values make the written record ambiguous.
- The code does not sort the pattern list. It reports the first hit in the given order. The longest-hit property (`Matcher.LongestHit`) is proved only for lists in non-increasing length order, as the configured list is. The model follows the code and does not sort either.
