/** The two passes of `main` over the entries of an OVA (tar) archive. The
    first pass loads the manifest from the last entry whose path ends in
    ".mf"; the second hashes every entry named by a manifest item and gives
    that item a PASSED or FAILED verdict. The archive is given as the
    sequence of its entries; SHA-1 and UTF-8 decoding are parameters. */
module Verification {
  import opened Text
  import opened ManifestParser

  newtype byte = x: int | 0 <= x < 256

  /** Size of the read buffer of the hashing loop. */
  const BUFFER_SIZE: nat := 8192

  /** One archive entry: its header path and its contents. */
  datatype Entry = Entry(path: string, data: seq<byte>)

  datatype Manifest = Manifest(name: string, contents: seq<ManifestItem>)

  /** The manifest `main` starts with: no name and no items. */
  const NoManifest := Manifest("", [])

  /** What `read_to_string` makes of an entry's bytes. */
  datatype Decoded = Valid(text: string) | InvalidUtf8

  /** The ways the run stops before any verdict: `read_to_string` returns an
      error for a manifest that is not UTF-8 (propagated by `?`), or
      `parse_mf` panics on one of its lines. */
  datatype Failure = Unreadable(path: string) | ParsePanic(error: ParseError)

  datatype Run<T> = Completed(value: T) | Aborted(failure: Failure)

  datatype Outcome = Passed | Failed

  /** One printed verdict: the item's name, its checksum type, the computed
      digest and the outcome. */
  datatype Verdict = Verdict(name: string, checksumType: ChecksumType, digest: string, outcome: Outcome)

  predicate EndsWith(s: string, suffix: string) {
    |suffix| <= |s| && s[|s| - |suffix|..] == suffix
  }

  predicate IsManifestPath(path: string) {
    EndsWith(path, ".mf")
  }

  // ---------------------------------------------------------------------
  // Pass 1: finding the manifest
  // ---------------------------------------------------------------------

  /** A manifest entry that the first pass reads and parses without error. */
  predicate Loads(entry: Entry, decode: seq<byte> -> Decoded) {
    decode(entry.data).Valid? && ParseAll(Lines(decode(entry.data).text)).Ok?
  }

  /** The manifest a loadable manifest entry yields. */
  function Load(entry: Entry, decode: seq<byte> -> Decoded): (m: Manifest)
    requires Loads(entry, decode)
    ensures m.name == entry.path
    ensures |m.contents| == |Lines(decode(entry.data).text)|
    ensures forall k :: 0 <= k < |m.contents| ==> ParseLine(Lines(decode(entry.data).text)[k]) == Ok(m.contents[k])
  {
    var lines := Lines(decode(entry.data).text);
    ParseAllOneItemPerLine(lines);
    Manifest(entry.path, ParseAll(lines).value)
  }

  /** Why a manifest entry that does not load stops the run. */
  function LoadFailure(entry: Entry, decode: seq<byte> -> Decoded): Failure
    requires !Loads(entry, decode)
  {
    match decode(entry.data)
    case InvalidUtf8 => Unreadable(entry.path)
    case Valid(text) => ParsePanic(ParseAll(Lines(text)).error)
  }

  /** The first pass as a specification: walk the entries from index `i`,
      replacing `manifest` at every ".mf" entry. */
  function SelectManifest(entries: seq<Entry>, decode: seq<byte> -> Decoded, i: nat, manifest: Manifest): Run<Manifest>
    decreases |entries| - i
  {
    if i >= |entries| then Completed(manifest)
    else if !IsManifestPath(entries[i].path) then SelectManifest(entries, decode, i + 1, manifest)
    else if !Loads(entries[i], decode) then Aborted(LoadFailure(entries[i], decode))
    else SelectManifest(entries, decode, i + 1, Load(entries[i], decode))
  }

  /** The first loop of `main`: the manifest variable is overwritten, name
      first and items second, at every entry whose path ends in ".mf". */
  method FindManifest(entries: seq<Entry>, decode: seq<byte> -> Decoded) returns (r: Run<Manifest>)
    ensures r == SelectManifest(entries, decode, 0, NoManifest)
  {
    var manifest := Manifest("", []);
    for i := 0 to |entries|
      invariant SelectManifest(entries, decode, 0, NoManifest) == SelectManifest(entries, decode, i, manifest)
    {
      var path := entries[i].path;
      if EndsWith(path, ".mf") {
        manifest := manifest.(name := path);
        var decoded := decode(entries[i].data);
        if decoded.InvalidUtf8? {
          return Aborted(Unreadable(path));
        }
        var parsed := ParseMf(decoded.text);
        if parsed.Err? {
          return Aborted(ParsePanic(parsed.error));
        }
        manifest := manifest.(contents := parsed.value);
      }
    }
    return Completed(manifest);
  }

  /** No ".mf" entry at index `i` or later. */
  predicate NoManifestFrom(entries: seq<Entry>, i: nat) {
    forall k :: i <= k < |entries| ==> !IsManifestPath(entries[k].path)
  }

  /** The first pass completes exactly when every ".mf" entry loads. */
  lemma {:induction false} SelectManifestCompletes(entries: seq<Entry>, decode: seq<byte> -> Decoded, i: nat, manifest: Manifest)
    ensures SelectManifest(entries, decode, i, manifest).Completed? <==>
      forall k :: i <= k < |entries| && IsManifestPath(entries[k].path) ==> Loads(entries[k], decode)
    decreases |entries| - i
  {
    if i < |entries| {
      SelectManifestCompletes(entries, decode, i + 1, manifest);
      if IsManifestPath(entries[i].path) && Loads(entries[i], decode) {
        SelectManifestCompletes(entries, decode, i + 1, Load(entries[i], decode));
      }
    }
  }

  /** Without a ".mf" entry the manifest stays as it was; otherwise it is
      the one loaded from the last ".mf" entry. */
  lemma {:induction false} LastManifestWins(entries: seq<Entry>, decode: seq<byte> -> Decoded, i: nat, manifest: Manifest)
    requires SelectManifest(entries, decode, i, manifest).Completed?
    ensures NoManifestFrom(entries, i) ==> SelectManifest(entries, decode, i, manifest).value == manifest
    ensures forall k :: i <= k < |entries| && IsManifestPath(entries[k].path) && NoManifestFrom(entries, k + 1) ==>
      Loads(entries[k], decode) && SelectManifest(entries, decode, i, manifest).value == Load(entries[k], decode)
    decreases |entries| - i
  {
    if i < |entries| {
      if !IsManifestPath(entries[i].path) {
        LastManifestWins(entries, decode, i + 1, manifest);
      } else {
        LastManifestWins(entries, decode, i + 1, Load(entries[i], decode));
      }
    }
  }

  /** Entry `k` is the first ".mf" entry from index `i` on that does not
      load. */
  predicate FirstFailingManifest(entries: seq<Entry>, decode: seq<byte> -> Decoded, i: nat, k: nat) {
    && i <= k < |entries|
    && IsManifestPath(entries[k].path)
    && !Loads(entries[k], decode)
    && forall m :: i <= m < k && IsManifestPath(entries[m].path) ==> Loads(entries[m], decode)
  }

  /** An aborted first pass reports the failure of the first ".mf" entry
      that does not load. */
  lemma {:induction false} FirstManifestFailure(entries: seq<Entry>, decode: seq<byte> -> Decoded, i: nat, manifest: Manifest)
    requires SelectManifest(entries, decode, i, manifest).Aborted?
    ensures exists k: nat :: (FirstFailingManifest(entries, decode, i, k) &&
      SelectManifest(entries, decode, i, manifest).failure == LoadFailure(entries[k], decode))
    decreases |entries| - i
  {
    if !IsManifestPath(entries[i].path) {
      FirstManifestFailure(entries, decode, i + 1, manifest);
    } else if Loads(entries[i], decode) {
      FirstManifestFailure(entries, decode, i + 1, Load(entries[i], decode));
    }
  }

  // ---------------------------------------------------------------------
  // Pass 2: hashing and judging
  // ---------------------------------------------------------------------

  /** The SHA-1 hasher of `crypto::sha1`: it remembers every byte fed to it,
      in order; its digest text is `digestOf` of those bytes. The ghost
      `inputs` records the chunks in the order `input` received them. */
  class Sha1 {
    const digestOf: seq<byte> -> string
    var consumed: seq<byte>
    ghost var inputs: seq<seq<byte>>

    constructor(digestOf: seq<byte> -> string)
      ensures this.digestOf == digestOf && consumed == [] && inputs == []
    {
      this.digestOf := digestOf;
      consumed := [];
      inputs := [];
    }

    method Input(chunk: seq<byte>)
      modifies this
      ensures consumed == old(consumed) + chunk
      ensures inputs == old(inputs) + [chunk]
    {
      consumed := consumed + chunk;
      inputs := inputs + [chunk];
    }

    /** `result_str`: the digest text of everything fed in so far. */
    function ResultStr(): string
      reads this
    {
      digestOf(consumed)
    }
  }

  /** A tar entry being read: `rest` holds the bytes not yet handed out. */
  class EntryReader {
    const path: string
    var rest: seq<byte>

    constructor(entry: Entry)
      ensures path == entry.path && rest == entry.data
    {
      path := entry.path;
      rest := entry.data;
    }

    /** `Read::read`: copies the next `n` unread bytes into the front of
        `buf`. How many it copies is not fixed: any positive number up to the
        smaller of the buffer size and what is left, and 0 only at the end
        of the entry (or for an empty buffer). */
    method Read(buf: array<byte>) returns (n: nat)
      modifies this, buf
      ensures n <= buf.Length && n <= |old(rest)|
      ensures buf[..n] == old(rest)[..n]
      ensures rest == old(rest)[n..]
      ensures n == 0 ==> buf.Length == 0 || old(rest) == []
    {
      var most := if buf.Length < |rest| then buf.Length else |rest|;
      if most == 0 {
        n := 0;
      } else {
        n :| 0 < n <= most;
      }
      forall k | 0 <= k < n {
        buf[k] := rest[k];
      }
      rest := rest[n..];
    }
  }

  function Flatten(chunks: seq<seq<byte>>): seq<byte> {
    if chunks == [] then [] else Flatten(chunks[..|chunks| - 1]) + chunks[|chunks| - 1]
  }

  /** The inner `while let` loop: reads the entry to its end through a
      buffer of BUFFER_SIZE bytes and feeds every chunk to a fresh hasher,
      which is returned. The hasher received, in order, chunks of 1 to
      BUFFER_SIZE bytes that together are exactly what was left to read, so
      the digest is the digest of those bytes however the reads split them. */
  method HashEntry(entry: EntryReader, digestOf: seq<byte> -> string) returns (digest: string, hasher: Sha1)
    modifies entry
    ensures entry.rest == []
    ensures fresh(hasher) && hasher.digestOf == digestOf
    ensures Flatten(hasher.inputs) == hasher.consumed == old(entry.rest)
    ensures ChunksFit(hasher.inputs)
    ensures digest == hasher.ResultStr() == digestOf(old(entry.rest))
  {
    ghost var original := entry.rest;
    hasher := new Sha1(digestOf);
    var buf := new byte[BUFFER_SIZE];
    while true
      invariant fresh(hasher) && hasher.digestOf == digestOf
      invariant hasher.consumed + entry.rest == original
      invariant Flatten(hasher.inputs) == hasher.consumed && ChunksFit(hasher.inputs)
      decreases |entry.rest|
    {
      ghost var before := entry.rest;
      var n := entry.Read(buf);
      if n == 0 {
        break;
      }
      SplitAt(hasher.consumed, before, original, n);
      FlattenSnoc(hasher.inputs, buf[..n]);
      hasher.Input(buf[..n]);
    }
    digest := hasher.ResultStr();
  }

  /** Every chunk fed to the hasher holds 1 to BUFFER_SIZE bytes. */
  predicate ChunksFit(chunks: seq<seq<byte>>) {
    forall k :: 0 <= k < |chunks| ==> 0 < |chunks[k]| <= BUFFER_SIZE
  }

  lemma SplitAt(consumed: seq<byte>, before: seq<byte>, original: seq<byte>, n: nat)
    requires consumed + before == original && n <= |before|
    ensures (consumed + before[..n]) + before[n..] == original
  {
    assert before == before[..n] + before[n..];
  }

  lemma FlattenSnoc(chunks: seq<seq<byte>>, chunk: seq<byte>)
    ensures Flatten(chunks + [chunk]) == Flatten(chunks) + chunk
  {
    assert (chunks + [chunk])[..|chunks|] == chunks;
  }

  function Judge(item: ManifestItem, digest: string): Verdict {
    Verdict(item.name, item.checksumType, digest, if item.checksum == digest then Passed else Failed)
  }

  /** The inner item loop for one entry, as a specification: items from index
      `j` on whose name is the entry's path are judged in order; `unread` is
      what the entry still holds, and the first match reads it all. */
  function EntryVerdicts(path: string, unread: seq<byte>, items: seq<ManifestItem>, j: nat, digestOf: seq<byte> -> string): seq<Verdict>
    decreases |items| - j
  {
    if j >= |items| then []
    else if items[j].name == path then [Judge(items[j], digestOf(unread))] + EntryVerdicts(path, [], items, j + 1, digestOf)
    else EntryVerdicts(path, unread, items, j + 1, digestOf)
  }

  /** The second pass as a specification: entries from index `i` on, each
      with its own verdicts, in archive order. */
  function Verdicts(entries: seq<Entry>, items: seq<ManifestItem>, i: nat, digestOf: seq<byte> -> string): seq<Verdict>
    decreases |entries| - i
  {
    if i >= |entries| then []
    else EntryVerdicts(entries[i].path, entries[i].data, items, 0, digestOf) + Verdicts(entries, items, i + 1, digestOf)
  }

  /** One iteration of the second loop of `main`: the entry is opened once,
      every manifest item is compared with its path, and a match hashes what
      is left of the entry and records a verdict. */
  method CheckEntry(e: Entry, items: seq<ManifestItem>, digestOf: seq<byte> -> string) returns (verdicts: seq<Verdict>)
    ensures verdicts == EntryVerdicts(e.path, e.data, items, 0, digestOf)
  {
    var entry := new EntryReader(e);
    verdicts := [];
    for j := 0 to |items|
      invariant entry.path == e.path
      invariant verdicts + EntryVerdicts(e.path, entry.rest, items, j, digestOf) == EntryVerdicts(e.path, e.data, items, 0, digestOf)
    {
      if items[j].name == entry.path {
        var digest, _ := HashEntry(entry, digestOf);
        verdicts := verdicts + [Judge(items[j], digest)];
      }
    }
  }

  /** The second loop of `main`: every entry of the archive is checked in
      turn against the manifest's items. */
  method CheckEntries(entries: seq<Entry>, items: seq<ManifestItem>, digestOf: seq<byte> -> string) returns (verdicts: seq<Verdict>)
    ensures verdicts == Verdicts(entries, items, 0, digestOf)
  {
    verdicts := [];
    for i := 0 to |entries|
      invariant Verdicts(entries, items, 0, digestOf) == verdicts + Verdicts(entries, items, i, digestOf)
    {
      var found := CheckEntry(entries[i], items, digestOf);
      verdicts := verdicts + found;
    }
  }

  /** `main` once the archive is open: the manifest pass, then the checking
      pass over the manifest's items. */
  function RunSpec(entries: seq<Entry>, decode: seq<byte> -> Decoded, digestOf: seq<byte> -> string): Run<seq<Verdict>> {
    match SelectManifest(entries, decode, 0, NoManifest)
    case Aborted(f) => Aborted(f)
    case Completed(manifest) => Completed(Verdicts(entries, manifest.contents, 0, digestOf))
  }

  method VerifyArchive(entries: seq<Entry>, decode: seq<byte> -> Decoded, digestOf: seq<byte> -> string) returns (r: Run<seq<Verdict>>)
    ensures r == RunSpec(entries, decode, digestOf)
  {
    var found := FindManifest(entries, decode);
    if found.Aborted? {
      return Aborted(found.failure);
    }
    var verdicts := CheckEntries(entries, found.value.contents, digestOf);
    return Completed(verdicts);
  }

  // ---------------------------------------------------------------------
  // The second pass read as (entry, item) pairs
  // ---------------------------------------------------------------------

  /** The pairs (i, j) of entry `i` with the items from index `j` on that
      carry its path, in item order. */
  function RowPairs(path: string, items: seq<ManifestItem>, i: nat, j: nat): seq<(nat, nat)>
    decreases |items| - j
  {
    if j >= |items| then []
    else if items[j].name == path then [(i, j)] + RowPairs(path, items, i, j + 1)
    else RowPairs(path, items, i, j + 1)
  }

  /** Every (entry, item) pair whose item names the entry's path, entries
      from index `i` on, ordered by entry and then by item: the pairs for
      which `main` prints a verdict. */
  function MatchedPairs(entries: seq<Entry>, items: seq<ManifestItem>, i: nat): seq<(nat, nat)>
    decreases |entries| - i
  {
    if i >= |entries| then []
    else RowPairs(entries[i].path, items, i, 0) + MatchedPairs(entries, items, i + 1)
  }

  /** A row holds exactly the items from `j` on that carry the path, in
      strictly increasing item order. */
  lemma {:induction false} RowPairsSpec(path: string, items: seq<ManifestItem>, i: nat, j: nat)
    ensures forall k :: 0 <= k < |RowPairs(path, items, i, j)| ==>
      var pair := RowPairs(path, items, i, j)[k];
      pair.0 == i && j <= pair.1 < |items| && items[pair.1].name == path
    ensures forall a, b :: 0 <= a < b < |RowPairs(path, items, i, j)| ==>
      RowPairs(path, items, i, j)[a].1 < RowPairs(path, items, i, j)[b].1
    ensures forall m :: j <= m < |items| && items[m].name == path ==> (i, m) in RowPairs(path, items, i, j)
    decreases |items| - j
  {
    if j < |items| {
      RowPairsSpec(path, items, i, j + 1);
      var r, r' := RowPairs(path, items, i, j), RowPairs(path, items, i, j + 1);
      if items[j].name == path {
        assert r == [(i, j)] + r';
        forall k | 0 < k < |r|
          ensures r[k] == r'[k - 1]
        {
        }
        assert (i, j) == r[0];
      }
    }
  }

  /** Every pair indexes an entry and an item. */
  predicate InRange(entries: seq<Entry>, items: seq<ManifestItem>, pairs: seq<(nat, nat)>) {
    forall k :: 0 <= k < |pairs| ==> pairs[k].0 < |entries| && pairs[k].1 < |items|
  }

  /** The matched pairs are sound, complete and in lexicographic order, so
      they are determined by the entries and the items alone. */
  lemma {:induction false} MatchedPairsSpec(entries: seq<Entry>, items: seq<ManifestItem>, i: nat)
    ensures InRange(entries, items, MatchedPairs(entries, items, i))
    ensures forall k :: 0 <= k < |MatchedPairs(entries, items, i)| ==>
      var pair := MatchedPairs(entries, items, i)[k];
      i <= pair.0 < |entries| && pair.1 < |items| && entries[pair.0].path == items[pair.1].name
    ensures forall a, b :: 0 <= a < b < |MatchedPairs(entries, items, i)| ==>
      var p, q := MatchedPairs(entries, items, i)[a], MatchedPairs(entries, items, i)[b];
      p.0 < q.0 || (p.0 == q.0 && p.1 < q.1)
    ensures forall e, m :: i <= e < |entries| && 0 <= m < |items| && entries[e].path == items[m].name ==>
      (e, m) in MatchedPairs(entries, items, i)
    decreases |entries| - i
  {
    if i < |entries| {
      var row, rest := RowPairs(entries[i].path, items, i, 0), MatchedPairs(entries, items, i + 1);
      RowPairsSpec(entries[i].path, items, i, 0);
      MatchedPairsSpec(entries, items, i + 1);
      var r := row + rest;
      forall a, b | 0 <= a < b < |r|
        ensures r[a].0 < r[b].0 || (r[a].0 == r[b].0 && r[a].1 < r[b].1)
      {
        if b < |row| {
          assert r[a] == row[a] && r[b] == row[b];
        } else if a < |row| {
          assert r[a] == row[a] && r[b] == rest[b - |row|];
        } else {
          assert r[a] == rest[a - |row|] && r[b] == rest[b - |row|];
        }
      }
      forall e, m | i <= e < |entries| && 0 <= m < |items| && entries[e].path == items[m].name
        ensures (e, m) in r
      {
        if e == i {
          assert (e, m) in row;
        } else {
          assert (e, m) in rest;
        }
      }
    }
  }

  /** Some item before index `j` already carries `path`. */
  predicate NamedBefore(items: seq<ManifestItem>, j: nat, path: string) {
    exists m :: 0 <= m < j && m < |items| && items[m].name == path
  }

  /** What the hasher sees for item `j` of entry `e`: the whole entry for the
      first item with that name, and nothing for a later one, because the
      first has already read the entry to its end. */
  function HashedBytes(entries: seq<Entry>, items: seq<ManifestItem>, e: nat, j: nat): seq<byte>
    requires e < |entries|
  {
    if NamedBefore(items, j, entries[e].path) then [] else entries[e].data
  }

  /** The verdicts for entry `e` from item `j` on are those of its row of
      pairs, each judged against the digest of what the hasher reads. */
  predicate RowJudged(entries: seq<Entry>, items: seq<ManifestItem>, e: nat, j: nat, unread: seq<byte>, digestOf: seq<byte> -> string)
    requires e < |entries|
  {
    var v, r := EntryVerdicts(entries[e].path, unread, items, j, digestOf), RowPairs(entries[e].path, items, e, j);
    |v| == |r| && InRange(entries, items, r) &&
    forall k :: 0 <= k < |r| ==> v[k] == Judge(items[r[k].1], digestOf(HashedBytes(entries, items, e, r[k].1)))
  }

  lemma NamedBeforeNext(items: seq<ManifestItem>, j: nat, path: string)
    requires j < |items|
    ensures NamedBefore(items, j + 1, path) <==> NamedBefore(items, j, path) || items[j].name == path
  {
    if NamedBefore(items, j + 1, path) && items[j].name != path {
      var m :| 0 <= m < j + 1 && m < |items| && items[m].name == path;
      assert m < j;
    }
  }

  lemma RowHit(entries: seq<Entry>, items: seq<ManifestItem>, e: nat, j: nat, unread: seq<byte>, digestOf: seq<byte> -> string)
    requires e < |entries| && j < |items| && items[j].name == entries[e].path
    requires unread == HashedBytes(entries, items, e, j)
    requires RowJudged(entries, items, e, j + 1, [], digestOf)
    ensures RowJudged(entries, items, e, j, unread, digestOf)
  {
    var path := entries[e].path;
    var v, r := EntryVerdicts(path, unread, items, j, digestOf), RowPairs(path, items, e, j);
    var v', r' := EntryVerdicts(path, [], items, j + 1, digestOf), RowPairs(path, items, e, j + 1);
    assert v == [Judge(items[j], digestOf(unread))] + v' && r == [(e, j)] + r';
    forall k | 0 < k < |r|
      ensures r[k].0 < |entries| && r[k].1 < |items|
      ensures v[k] == Judge(items[r[k].1], digestOf(HashedBytes(entries, items, e, r[k].1)))
    {
      assert v[k] == v'[k - 1] && r[k] == r'[k - 1];
    }
  }

  lemma RowMiss(entries: seq<Entry>, items: seq<ManifestItem>, e: nat, j: nat, unread: seq<byte>, digestOf: seq<byte> -> string)
    requires e < |entries| && j < |items| && items[j].name != entries[e].path
    requires RowJudged(entries, items, e, j + 1, unread, digestOf)
    ensures RowJudged(entries, items, e, j, unread, digestOf)
  {
    var path := entries[e].path;
    assert EntryVerdicts(path, unread, items, j, digestOf) == EntryVerdicts(path, unread, items, j + 1, digestOf);
    assert RowPairs(path, items, e, j) == RowPairs(path, items, e, j + 1);
  }

  lemma {:induction false} RowVerdicts(entries: seq<Entry>, items: seq<ManifestItem>, e: nat, j: nat, unread: seq<byte>, digestOf: seq<byte> -> string)
    requires e < |entries| && unread == HashedBytes(entries, items, e, j)
    ensures RowJudged(entries, items, e, j, unread, digestOf)
    decreases |items| - j
  {
    var path := entries[e].path;
    if j < |items| {
      NamedBeforeNext(items, j, path);
      if items[j].name == path {
        RowVerdicts(entries, items, e, j + 1, [], digestOf);
        RowHit(entries, items, e, j, unread, digestOf);
      } else {
        RowVerdicts(entries, items, e, j + 1, unread, digestOf);
        RowMiss(entries, items, e, j, unread, digestOf);
      }
    }
  }

  lemma {:induction false} VerdictsFrom(entries: seq<Entry>, items: seq<ManifestItem>, i: nat, digestOf: seq<byte> -> string)
    ensures var v, p := Verdicts(entries, items, i, digestOf), MatchedPairs(entries, items, i);
      |v| == |p| && InRange(entries, items, p) &&
      forall k :: 0 <= k < |p| ==> v[k] == Judge(items[p[k].1], digestOf(HashedBytes(entries, items, p[k].0, p[k].1)))
    decreases |entries| - i
  {
    if i < |entries| {
      assert !NamedBefore(items, 0, entries[i].path);
      RowVerdicts(entries, items, i, 0, entries[i].data, digestOf);
      RowPairsSpec(entries[i].path, items, i, 0);
      VerdictsFrom(entries, items, i + 1, digestOf);
      var row, rest := RowPairs(entries[i].path, items, i, 0), MatchedPairs(entries, items, i + 1);
      var vr, vs := EntryVerdicts(entries[i].path, entries[i].data, items, 0, digestOf), Verdicts(entries, items, i + 1, digestOf);
      var v, p := vr + vs, row + rest;
      forall k | 0 <= k < |p|
        ensures p[k].0 < |entries| && p[k].1 < |items|
        ensures v[k] == Judge(items[p[k].1], digestOf(HashedBytes(entries, items, p[k].0, p[k].1)))
      {
        if k < |row| {
          assert v[k] == vr[k] && p[k] == row[k];
        } else {
          assert v[k] == vs[k - |row|] && p[k] == rest[k - |row|];
        }
      }
    }
  }

  /** The verdicts of the second pass are, one for one and in order, those of
      the matched pairs: verdict k names item j of pair k, carries its
      checksum type, holds the digest of what the hasher read for it, and
      is PASSED exactly when the item's checksum equals that digest,
      character for character. */
  lemma VerdictsFollowPairs(entries: seq<Entry>, items: seq<ManifestItem>, digestOf: seq<byte> -> string)
    ensures var v, p := Verdicts(entries, items, 0, digestOf), MatchedPairs(entries, items, 0);
      |v| == |p| && InRange(entries, items, p) &&
      forall k :: 0 <= k < |p| ==>
        && v[k].name == items[p[k].1].name
        && v[k].checksumType == items[p[k].1].checksumType
        && v[k].digest == digestOf(HashedBytes(entries, items, p[k].0, p[k].1))
        && (v[k].outcome == Passed <==> items[p[k].1].checksum == v[k].digest)
  {
    VerdictsFrom(entries, items, 0, digestOf);
  }

  /** With distinct item names every verdict holds the digest of the whole
      entry it names. */
  lemma DistinctNamesHashWholeEntries(entries: seq<Entry>, items: seq<ManifestItem>, digestOf: seq<byte> -> string)
    requires forall a, b :: 0 <= a < b < |items| ==> items[a].name != items[b].name
    ensures var v, p := Verdicts(entries, items, 0, digestOf), MatchedPairs(entries, items, 0);
      |v| == |p| && InRange(entries, items, p) &&
      forall k :: 0 <= k < |p| ==> v[k].digest == digestOf(entries[p[k].0].data)
  {
    VerdictsFollowPairs(entries, items, digestOf);
    MatchedPairsSpec(entries, items, 0);
  }

  /** A second item with the same name as an earlier one is judged against
      the digest of no bytes at all. */
  lemma DuplicateNameHashesNothing(entries: seq<Entry>, items: seq<ManifestItem>, digestOf: seq<byte> -> string, a: nat, b: nat)
    requires a < b < |items| && items[a].name == items[b].name
    ensures var v, p := Verdicts(entries, items, 0, digestOf), MatchedPairs(entries, items, 0);
      |v| == |p| && forall k :: 0 <= k < |p| && p[k].1 == b ==> v[k].digest == digestOf([])
  {
    VerdictsFollowPairs(entries, items, digestOf);
    MatchedPairsSpec(entries, items, 0);
    var p := MatchedPairs(entries, items, 0);
    forall k | 0 <= k < |p| && p[k].1 == b
      ensures NamedBefore(items, b, entries[p[k].0].path)
    {
      assert items[a].name == entries[p[k].0].path;
    }
  }

  /** `result_str` writes 40 lower-case hex digits. */
  predicate LowerHexDigest(s: string) {
    |s| == 40 && forall k :: 0 <= k < |s| ==> ('0' <= s[k] <= '9' || 'a' <= s[k] <= 'f')
  }

  /** The comparison is case-sensitive: an item whose checksum is not 40
      lower-case hex digits (for example one written in upper case) always
      FAILS. */
  lemma NonLowerHexChecksumFails(entries: seq<Entry>, items: seq<ManifestItem>, digestOf: seq<byte> -> string)
    requires forall d :: LowerHexDigest(digestOf(d))
    ensures var v, p := Verdicts(entries, items, 0, digestOf), MatchedPairs(entries, items, 0);
      |v| == |p| && InRange(entries, items, p) &&
      forall k :: 0 <= k < |p| && !LowerHexDigest(items[p[k].1].checksum) ==> v[k].outcome == Failed
  {
    VerdictsFollowPairs(entries, items, digestOf);
  }

  lemma {:induction false} NoItemsNoVerdicts(entries: seq<Entry>, i: nat, digestOf: seq<byte> -> string)
    ensures Verdicts(entries, [], i, digestOf) == []
    decreases |entries| - i
  {
    if i < |entries| {
      NoItemsNoVerdicts(entries, i + 1, digestOf);
    }
  }

  /** An archive without a ".mf" entry completes with no verdict at all. */
  lemma NoManifestNoVerdicts(entries: seq<Entry>, decode: seq<byte> -> Decoded, digestOf: seq<byte> -> string)
    requires NoManifestFrom(entries, 0)
    ensures RunSpec(entries, decode, digestOf) == Completed([])
  {
    SelectManifestCompletes(entries, decode, 0, NoManifest);
    LastManifestWins(entries, decode, 0, NoManifest);
    NoItemsNoVerdicts(entries, 0, digestOf);
  }
}
