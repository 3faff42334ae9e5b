# ovasum: a verified model of the OVA checksum verifier

`ovasum` checks the files inside an OVA archive (a tar file) against the
archive's manifest. The manifest is the entry whose path ends in `.mf`, and
it holds lines of the form `SHA1(NAME)= HEX`. The program works in two
passes over the archive:

1. It finds the manifest and parses it with `parse_mf`.
2. For every archive entry, it compares the entry's path with each manifest
   item's name. On a match it streams the entry through SHA-1 with an
   8192-byte buffer and prints `PASSED` or `FAILED`, depending on whether
   the item's checksum equals the digest.

This project models that core in Dafny and proves what it does. It has
three modules:

- `Text` (`text.dfy`) holds the library primitives that `parse_mf` relies
  on. It models nom's `take_until` and `take_while(is_hex_digit)`, and
  Rust's `trim_start_matches` and `str::lines`. Each has lemmas that say
  exactly what it returns.
- `ManifestParser` (`manifest.dfy`) holds `parse_mf`.
  - `ParseLine` follows the code's own algorithm step by step. It takes the
    tag, reverses the rest, takes the leading hex run, cuts at the first
    `)`, strips and reverses back.
  - `ParseLineFromBothEnds` is an independent reading with forward scans
    only. `ParseLineFromBothEndsCorrect` proves the two equal on every
    line.
  - The line loop is the method `ParseMf`, proved against the function
    `ParseAll`. The `unwrap` panics become the `Err` cases of a `Result`.
- `Verification` (`engine.dfy`) holds the two passes of `main`.
  - The archive is a sequence of entries, each a path with its bytes.
  - `FindManifest` is the first loop. It overwrites the manifest at every
    `.mf` entry.
  - `CheckEntries` and `CheckEntry` are the nested second loop. The entry
    reader is shared by all items of one entry, so a second item with the
    same name reads nothing.
  - `HashEntry` is the `while let` read loop. It uses a `Sha1` object that
    accumulates its input and an `EntryReader` that holds the bytes not yet
    read, whose `Read` returns any number of bytes from 1 up to the buffer
    size.
  - Each loop is specified by a recursive function. Lemmas then say which
    (entry, item) pairs get a verdict, in what order, and against which
    digest.

`str::lines` is modelled as current Rust defines it. A line is split at each
`\n`, and a `\r` right before that `\n` is dropped. A bare `\r` that ends
an unterminated last line is kept. Older Rust toolchains dropped that `\r`
too, so under them a manifest whose last line is `...= HEX\r`, with no final
newline, gets checksum `HEX`. Under this model that checksum is empty.

Characters are modelled as Dafny `char`. The code does some steps on
bytes: `as_bytes`, then `take_while`, `take_until(")")` and
`from_utf8_lossy`. Every character those steps test is ASCII, and a
multi-byte UTF-8 character never contains an ASCII byte. So the splits fall
at the same places as in the character model, and nothing is lost.

Some of what the code does differs from how the file format is usually
described. The model follows the code:

- The tag before `(` is not trimmed. `" SHA1(a)= 00"` gets checksum type
  `None`.
- Trailing whitespace is not trimmed. A line ending in a space has an empty
  checksum (`ParseLineChecksum`).
- An empty file name and an empty checksum are accepted. They are not
  errors.
- A blank line has no `(`, so it aborts the whole parse. This includes a
  blank line at the end of the manifest. Only one terminating newline is
  harmless (`LinesTrailingNewline`).
- A malformed line is not reported and skipped. It makes `unwrap` panic,
  which ends the run (`ParseAllFirstError`, `FirstManifestFailure`).
- Manifest items that match no entry produce no output at all
  (`MatchedPairsSpec`).
- If the archive has no `.mf` entry, the run produces no verdicts and no
  error (`NoManifestNoVerdicts`).
- The checksum tag does not choose the hash: SHA-1 is always computed.

## Model

| member | source | states |
|---|---|---|
| Text.Reverse | src/main.rs:43 | `s.chars().rev().collect()`: the characters in reverse order. |
| Text.TakeUntil | src/main.rs:41-42 | nom's complete `take_until` for one character: either the pair (rest from the first delimiter on, text before it), or an error when the delimiter is absent. |
| Text.TakeWhileHex | src/main.rs:44-45 | nom's complete `take_while(is_hex_digit)`: the pair (rest, leading run of `0-9a-fA-F`). It never fails. |
| Text.TrimStartMatches | src/main.rs:43 | `trim_start_matches(c)`: drops leading copies of `c` for as long as there are any. |
| Text.Lines | src/main.rs:35-39 | `str::lines`: splits at each `\n` and drops one `\r` in front of it. No empty line follows a final `\n`, and a bare `\r` ending an unterminated last line is kept. |
| Text.StripCarriageReturn | src/main.rs:37 | The `\r` step of `str::lines`: the result is the line with at most its last character removed, and that character is removed exactly when it is `\r`. |
| Text.TakeUntilSpec | src/main.rs:41-42 | `take_until` fails exactly when the delimiter is absent. Otherwise it splits the input just before the first delimiter. |
| Text.TakeWhileHexSpec | src/main.rs:44-45 | `take_while(is_hex_digit)` takes the longest prefix made of `0-9a-fA-F` and never fails. |
| Text.TrimStartMatchesSpec | src/main.rs:43 | `trim_start_matches` removes every leading copy of the character, not just one. It leaves a suffix that does not start with it. |
| Text.ChecksumStartSpec | src/main.rs:43-47 | From the computed start to the end of the line every character is a hex digit, and the character just before the start is not. |
| Text.LinesJoinLines | src/main.rs:35-39 | Lines without `\n` and without a final `\r`, each ended by `\n`, come back from `str::lines` unchanged and in order. |
| Text.LinesTrailingNewline | src/main.rs:35-39 | A final `\n` after a non-empty last line that does not end in `\r` adds no line. |
| Text.LinesHaveNoNewline | src/main.rs:35-39 | No line produced by `str::lines` contains `\n`. |
| Text.LinesCrLf | src/main.rs:35-39 | A line ended by `\r\n` comes out without the `\r`, followed by the lines of the rest. So a manifest with Windows line endings gives the same lines. |
| Text.LinesUnterminated | src/main.rs:35-39 | A last line with no terminating `\n` is one whole line, including a `\r` at its end. |
| ManifestParser.ChecksumTypeOf | src/main.rs:55-59 | The checksum type is SHA1 exactly when the tag is the exact text `SHA1`, and None otherwise. |
| ManifestParser.ParseLine | src/main.rs:41-65 | One pass of the line loop, following the code's steps. It takes the tag up to `(` and strips leading `(`. It reverses the rest and takes its leading hex run, which reversed back is the checksum. It cuts at the first `)`, strips leading `)`, and reverses back to get the name. Each `unwrap` panic becomes an `Err`. |
| ManifestParser.ParseAll | src/main.rs:40-66 | The `for line` loop as a function: the items of all lines in order, or the error of the first line that panics. |
| ManifestParser.ParseLineFromBothEndsCorrect | src/main.rs:41-59 | The reverse/take/reverse algorithm gives the same result on every line as the two-ended reading. Both failures are included. |
| ManifestParser.ParseLineFields | src/main.rs:41-59 | The three fields come from where the first `(`, the last `)` before the trailing hex run, and the run itself fall. The tag is untrimmed, the name has its `(`/`)` runs stripped, and the checksum is the run. |
| ManifestParser.ParseLineChecksum | src/main.rs:43-47 | The checksum is the line's maximal trailing hex run, in original order, with a non-hex character before it. |
| ManifestParser.ParseLineErrors | src/main.rs:41-49 | A line aborts with the first panic exactly when it has no `(`. It aborts with the second exactly when no `)` lies between the first `(` and the trailing hex run. |
| ManifestParser.ParseLineRoundTrip | src/main.rs:41-65 | `TAG(NAME)= HEX` parses back to (NAME, type of TAG, HEX). This holds when TAG has no `(`, NAME neither starts with `(` nor ends with `)` (it may hold parentheses inside), and HEX is hex. |
| ManifestParser.ParseMf | src/main.rs:33-68 | The line loop returns the items of all lines in order, or the error of the first line that panics. |
| ManifestParser.ParseAllOneItemPerLine | src/main.rs:34-40 | The manifest parses exactly when every line does, and it then has one item per line, in line order. |
| ManifestParser.ParseAllFirstError | src/main.rs:40-49 | A failed parse carries the error of the first line that fails. Every line before it parses. |
| ManifestParser.ParseMfRoundTrip | src/main.rs:147-160 | A manifest written one `SHA1(NAME)= HEX` line per item, each ended by `\n`, parses back to the same items in the same order. The unit test's manifest is an instance. |
| Verification.EndsWith | src/main.rs:91 | `str::ends_with`: the path's last characters are exactly the suffix. The test is case-sensitive. |
| Verification.IsManifestPath | src/main.rs:91 | An entry is a manifest exactly when its path ends in `.mf`, in lower case. |
| Verification.LoadFailure | src/main.rs:94-95 | A `.mf` entry that does not load stops the run. If it is not UTF-8, that is the `?` of `read_to_string`. Otherwise it is the panic of the first bad line inside `parse_mf`. |
| Verification.Load | src/main.rs:91-95 | A loaded manifest takes the entry's path as its name and holds one item per manifest line: item k is what line k of the decoded text parses to. |
| Verification.SelectManifest | src/main.rs:80-97 | Pass 1 as a function. Entries are walked in order, and each `.mf` entry replaces the manifest with its decoded and parsed contents. An undecodable or unparsable `.mf` entry aborts the run. |
| Verification.FindManifest | src/main.rs:76-97 | The first loop overwrites the manifest at each `.mf` entry. It aborts on an unreadable or unparsable manifest, and otherwise returns what the last `.mf` entry gives. |
| Verification.SelectManifestCompletes | src/main.rs:80-97 | The first pass completes exactly when every `.mf` entry decodes and parses. |
| Verification.LastManifestWins | src/main.rs:76-97 | With no `.mf` entry the manifest keeps its initial value. Otherwise it is the parse of the last `.mf` entry. |
| Verification.FirstManifestFailure | src/main.rs:91-95 | An aborted first pass reports the failure of the first `.mf` entry that does not load. |
| Verification.Sha1.Input | src/main.rs:125 | `input` appends the chunk to the bytes hashed so far. |
| Verification.Sha1.ResultStr | src/main.rs:129 | The model's definition of `result_str`: the digest text of the bytes consumed so far. `Sha1.Input` and `HashEntry` prove that these are exactly the entry's unread bytes, in order. |
| Verification.EntryReader.Read | src/main.rs:121 | `read` copies the next unread bytes into the buffer, at most its length. It returns 0 only at the end of the entry or for an empty buffer. |
| Verification.HashEntry | src/main.rs:118-129 | The loop returns its fresh hasher. The chunks the hasher received hold 1 to BUFFER_SIZE bytes each, and joined in order they are exactly the bytes left to read. The entry ends fully read, and the digest is the digest of those bytes however the reads split them. |
| Verification.Judge | src/main.rs:129-135 | One verdict carries the item's name and checksum type and the digest. It is PASSED exactly when the item's checksum equals the digest, and FAILED otherwise. |
| Verification.EntryVerdicts | src/main.rs:104-137 | The item loop for one entry as a function. Items whose name equals the path are judged in item order. The first is judged against the digest of what is unread, and later ones against the digest of nothing. |
| Verification.Verdicts | src/main.rs:102-138 | Pass 2 as a function: each entry's verdicts, concatenated in archive order. |
| Verification.CheckEntry | src/main.rs:103-137 | The item loop for one entry gives its verdicts. The first item with a matching name hashes the whole entry and later ones hash what is left. |
| Verification.CheckEntries | src/main.rs:102-138 | The second loop gives the verdicts of every entry, in archive order. |
| Verification.RunSpec | src/main.rs:76-138 | `main` as a function. Pass 1 either aborts with its failure, or pass 2 runs over the selected manifest's items. |
| Verification.VerifyArchive | src/main.rs:76-138 | `main` after the archive is open: pass 1 and then pass 2 over the manifest's items, or the abort of pass 1. |
| Verification.MatchedPairsSpec | src/main.rs:102-113 | The (entry, item) pairs that get a verdict are exactly those whose item name equals the entry path, character for character. They are ordered by entry and then by item. |
| Verification.VerdictsFollowPairs | src/main.rs:102-135 | Verdict k belongs to pair k and carries its item's name and checksum type. It holds the digest of what was read, and it is PASSED exactly when the item's checksum equals that digest. |
| Verification.DistinctNamesHashWholeEntries | src/main.rs:104-129 | When item names are distinct, every verdict holds the digest of the whole entry it names. |
| Verification.DuplicateNameHashesNothing | src/main.rs:103-127 | A later item with an earlier item's name is judged against the digest of no bytes, because the shared reader is already exhausted. |
| Verification.NonLowerHexChecksumFails | src/main.rs:129-135 | The comparison is case-sensitive, so a checksum that is not 40 lower-case hex digits always FAILS. |
| Verification.NoManifestNoVerdicts | src/main.rs:76-104 | An archive without a `.mf` entry completes with no verdict. |

## Left out

- Opening the archive file, `env::args`, the `tar` crate's entry iteration and header decoding (src/main.rs:71-74, 80-90, 98-103, 114) are I/O and a foreign library. The archive is a sequence of (path, bytes) entries. Errors from opening, iterating, decoding a header path or reading a header's size (the `?` on `entry.header().size()`), and the `unwrap` on non-UTF-8 paths, are not modelled.
- SHA-1 itself (the `crypto` crate) is not part of this model. The digest text is a function parameter `digestOf` of the bytes fed to the hasher, and its internals are not modelled.
- `read_to_string`'s UTF-8 validation is a function parameter `decode` that either yields text or reports invalid UTF-8. That report aborts the run as the `?` does.
- Verification.EntryReader.Read: read errors are not modelled. In the code an `Err` from `read` silently ends the `while let` loop, and the digest then covers only the bytes read so far.
- The progress bar (`pbr`) and the `println!` output are presentation only. The verdicts are returned as a sequence of (name, checksum type, digest, PASSED/FAILED).
- The unit test's two literal lines (src/main.rs:147-160) are not written out as a literal example. They are covered by `ParseMfRoundTrip`, whose conditions both lines meet.
