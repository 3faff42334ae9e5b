/** The manifest parser `parse_mf`: manifest text is split into lines and
    every line `TAG(NAME)= HEX` becomes one manifest item. The line is read
    from both ends so that a file name containing parentheses survives: the
    tag is taken up to the first '(', the checksum is the trailing run of hex
    digits, and the name runs up to the last ')' in front of that run. */
module ManifestParser {
  import opened Text

  datatype ChecksumType = SHA1 | None

  datatype ManifestItem = ManifestItem(name: string, checksumType: ChecksumType, checksum: string)

  /** The two `unwrap` calls of `parse_mf` that can panic: no '(' in the line
      (the first `take_until`) and no ')' in front of the checksum (the
      second). */
  datatype ParseError = MissingOpenParen | MissingCloseParen

  datatype Result<T> = Ok(value: T) | Err(error: ParseError)

  /** Only the exact tag "SHA1" is recognised. */
  function ChecksumTypeOf(tag: string): ChecksumType {
    if tag == "SHA1" then SHA1 else None
  }

  /** One iteration of the line loop of `parse_mf`, step by step as the code
      does it: take the tag up to '(', strip the leading '(' characters and
      reverse the rest, take the leading hex run of the reversed text and
      reverse it back as the checksum, then drop what lies before the first
      ')' of the reversed text, strip its leading ')' characters and reverse
      back to get the file name. */
  function ParseLine(line: string): Result<ManifestItem> {
    match TakeUntil(line, '(')
    case NotFound => Err(MissingOpenParen)
    case Found(remainder, hashType) =>
      var split := TakeWhileHex(Reverse(TrimStartMatches(remainder, '(')));
      var checksum := Reverse(split.1);
      match TakeUntil(split.0, ')')
      case NotFound => Err(MissingCloseParen)
      case Found(fromParen, _) =>
        var fileName := Reverse(TrimStartMatches(fromParen, ')'));
        Ok(ManifestItem(fileName, ChecksumTypeOf(hashType), checksum))
  }

  /** Reference reading of a line with forward scans only: with p the first
      '(' and e the start of the trailing hex run, the name is the text from
      p + 1 through the last ')' before e, with its leading '(' and trailing
      ')' characters stripped. */
  function ParseLineFromBothEnds(line: string): Result<ManifestItem> {
    if '(' !in line then Err(MissingOpenParen)
    else
      var p := IndexOf(line, '(');
      var e := ChecksumStart(line);
      ChecksumStartBound(line, p);
      if ')' !in line[p..e] then Err(MissingCloseParen)
      else
        var q := p + LastIndexOf(line[p..e], ')');
        Ok(ManifestItem(TrimEndMatches(TrimStartMatches(line[p + 1..q + 1], '('), ')'),
                        ChecksumTypeOf(line[..p]),
                        line[e..]))
  }

  /** Stripping the leading '(' characters from the text after the first '('
      leaves the line from some t > p on, with only '(' in between. */
  lemma TrimmedAfterTag(line: string, p: nat) returns (t: nat)
    requires p < |line| && line[p] == '('
    ensures p < t <= |line| && TrimStartMatches(line[p..], '(') == line[t..]
    ensures forall i :: p <= i < t ==> line[i] == '('
    ensures t < |line| ==> line[t] != '('
  {
    var remainder := line[p..];
    var trimmed := TrimStartMatches(remainder, '(');
    TrimStartMatchesSpec(remainder, '(');
    t := |line| - |trimmed|;
    assert remainder[0] == '(';
    assert forall i :: p <= i < t ==> line[i] == remainder[i - p];
  }

  /** The hex run that the reversed remainder starts with is the reversed
      trailing hex run of the whole line. */
  lemma HexRunOfRemainder(line: string, t: nat)
    requires t <= ChecksumStart(line)
    ensures var e := ChecksumStart(line);
      TakeWhileHex(Reverse(line[t..])) == (Reverse(line[t..e]), Reverse(line[e..]))
  {
    ChecksumStartOfSuffix(line, t);
    ReverseTakeWhileHex(line[t..]);
    SuffixSlices(line, t, ChecksumStart(line));
  }

  /** The last ')' before the checksum lies after the stripped '(' run, so it
      is also the last ')' of the text between that run and the checksum. */
  lemma CloseParenAfterTrim(line: string, p: nat, t: nat, e: nat)
    requires p < t <= e <= |line|
    requires forall i :: p <= i < t ==> line[i] == '('
    ensures ')' in line[p..e] <==> ')' in line[t..e]
    ensures ')' in line[p..e] ==>
      var q := p + LastIndexOf(line[p..e], ')');
      t <= q < e && LastIndexOf(line[t..e], ')') == q - t
  {
    if ')' in line[p..e] {
      var q := p + LastIndexOf(line[p..e], ')');
      LastIndexOfLast(line[p..e], ')');
      assert line[q] == ')';
      assert line[t..e][q - t] == ')';
      assert line[t..e][q - t + 1..] == line[p..e][q - p + 1..];
      LastIndexOfUnique(line[t..e], ')', q - t);
    }
    if ')' in line[t..e] {
      var j :| 0 <= j < e - t && line[t..e][j] == ')';
      assert line[p..e][t - p + j] == ')';
    }
  }

  /** Stripping '(' from the text after the first '(' up to the closing ')'
      starts the name where the stripped run ends. */
  lemma NameAfterTrim(line: string, p: nat, t: nat, q: nat)
    requires p < t <= q < |line|
    requires forall i :: p <= i < t ==> line[i] == '('
    requires line[t] != '('
    ensures TrimStartMatches(line[p + 1..q + 1], '(') == line[t..q + 1]
  {
    var s := line[p + 1..q + 1];
    assert forall i :: 0 <= i < t - p - 1 ==> s[i] == line[p + 1 + i];
    assert s[t - p - 1..] == line[t..q + 1];
    TrimStartMatchesUnique(s, '(', line[t..q + 1]);
  }

  /** Reading the reversed `line[t..e]` up to its first `)` splits it at the
      last `)` at index `q`. */
  lemma ReversedBodyUntilClose(line: string, t: nat, q: nat, e: nat)
    requires t <= q < e <= |line|
    requires ')' in line[t..e] && LastIndexOf(line[t..e], ')') == q - t
    ensures TakeUntil(Reverse(line[t..e]), ')') == Found(Reverse(line[t..q + 1]), Reverse(line[q + 1..e]))
  {
    var body := line[t..e];
    LastIndexOfLast(body, ')');
    assert line[q] == body[q - t] == ')';
    assert line[q + 1..e] == body[q - t + 1..];
    assert body == line[t..q + 1] + line[q + 1..e];
    ReverseTakeUntil(body, ')', line[t..q + 1], line[q + 1..e]);
  }

  /** `ParseLine` once the tag and the checksum are split off: what is left
      is to read the reversed text between the stripped '(' run and the
      checksum up to its first ')'. */
  lemma ParseLineAfterTag(line: string, p: nat, t: nat, e: nat)
    requires '(' in line && IndexOf(line, '(') == p && ChecksumStart(line) == e
    requires p < t <= e && TrimStartMatches(line[p..], '(') == line[t..]
    ensures ParseLine(line) ==
      match TakeUntil(Reverse(line[t..e]), ')')
      case NotFound => Err(MissingCloseParen)
      case Found(fromParen, _) =>
        Ok(ManifestItem(Reverse(TrimStartMatches(fromParen, ')')), ChecksumTypeOf(line[..p]), line[e..]))
  {
    HexRunOfRemainder(line, t);
    ReverseReverse(line[e..]);
  }

  /** The reversal algorithm of `parse_mf` computes exactly the two-ended
      reading, on every line, including the two failures. */
  lemma ParseLineFromBothEndsCorrect(line: string)
    ensures ParseLine(line) == ParseLineFromBothEnds(line)
  {
    if '(' in line {
      var p := IndexOf(line, '(');
      var e := ChecksumStart(line);
      ChecksumStartBound(line, p);
      var t := TrimmedAfterTag(line, p);
      assert t <= e by {
        ChecksumStartBound(line, t - 1);
      }
      ParseLineAfterTag(line, p, t, e);
      var body := line[t..e];
      CloseParenAfterTrim(line, p, t, e);
      if ')' in line[p..e] {
        var q := p + LastIndexOf(line[p..e], ')');
        var named := line[t..q + 1];
        ReversedBodyUntilClose(line, t, q, e);
        assert Reverse(TrimStartMatches(Reverse(named), ')')) == TrimEndMatches(named, ')') by {
          ReverseTrimStartReverse(named, ')');
        }
        assert TrimStartMatches(line[p + 1..q + 1], '(') == named by {
          NameAfterTrim(line, p, t, q);
        }
        BothEndsAt(line, p, e, q);
      } else {
        assert TakeUntil(Reverse(body), ')') == NotFound by {
          ReverseContains(body, ')');
          TakeUntilSpec(Reverse(body), ')');
        }
      }
    }
  }

  /** The checksum is the maximal trailing run of hex digits of the line, in
      its original order; nothing is trimmed first, so a line that ends in a
      space gets an empty checksum. */
  lemma ParseLineChecksum(line: string)
    ensures ParseLine(line).Ok? ==>
      var c := ParseLine(line).value.checksum;
      |c| < |line| && c == line[|line| - |c|..] && AllHex(c) && !IsHexDigit(line[|line| - |c| - 1])
  {
    ParseLineFromBothEndsCorrect(line);
    if ParseLine(line).Ok? {
      var p := IndexOf(line, '(');
      var e := ChecksumStart(line);
      ChecksumStartBound(line, p);
      ChecksumStartSpec(line);
      assert ParseLine(line).value.checksum == line[e..];
    }
  }

  /** The two ways a line aborts the parse: it has no '(' at all, or no ')'
      stands between its first '(' and its trailing hex run. */
  lemma ParseLineErrors(line: string)
    ensures ParseLine(line) == Err(MissingOpenParen) <==> '(' !in line
    ensures ParseLine(line) == Err(MissingCloseParen) <==>
      '(' in line && forall k :: IndexOf(line, '(') <= k < ChecksumStart(line) ==> line[k] != ')'
  {
    ParseLineFromBothEndsCorrect(line);
    if '(' in line {
      var p := IndexOf(line, '(');
      var e := ChecksumStart(line);
      ChecksumStartBound(line, p);
      NotInSlice(line, ')', p, e);
    }
  }

  /** The two-ended reading once the three split points are known. */
  lemma BothEndsAt(line: string, p: nat, e: nat, q: nat)
    requires '(' in line && IndexOf(line, '(') == p && ChecksumStart(line) == e && p < e
    requires ')' in line[p..e] && p + LastIndexOf(line[p..e], ')') == q
    ensures ParseLineFromBothEnds(line) ==
      Ok(ManifestItem(TrimEndMatches(TrimStartMatches(line[p + 1..q + 1], '('), ')'), ChecksumTypeOf(line[..p]), line[e..]))
  {
  }

  /** The fields of a parsed line, located by what the characters are: the
      tag is everything before the first '(' (untrimmed), the checksum is the
      trailing hex run, and the name is the text after that '(' through the
      last ')' in front of the checksum, with its leading '(' and trailing
      ')' characters stripped. */
  lemma ParseLineFields(line: string, p: nat, q: nat)
    requires p < |line| && line[p] == '(' && '(' !in line[..p]
    requires p < q < ChecksumStart(line) && line[q] == ')' && ')' !in line[q + 1..ChecksumStart(line)]
    ensures ParseLine(line) ==
      Ok(ManifestItem(TrimEndMatches(TrimStartMatches(line[p + 1..q + 1], '('), ')'),
                      ChecksumTypeOf(line[..p]),
                      line[ChecksumStart(line)..]))
  {
    var e := ChecksumStart(line);
    IndexOfUnique(line, '(', p);
    var mid := line[p..e];
    assert mid[q - p] == ')' && mid[q - p + 1..] == line[q + 1..e];
    LastIndexOfUnique(mid, ')', q - p);
    ParseLineAt(line, p, e, q);
  }

  /** Rendering an item as `TAG(NAME)= HEX` and parsing it back gives the item,
      whatever parentheses the name holds inside, provided the tag has no '(',
      the name does not start with '(' or end with ')', and the checksum is
      made of hex digits. */
  lemma ParseLineRoundTrip(tag: string, name: string, hex: string)
    requires '(' !in tag
    requires name == [] || (name[0] != '(' && name[|name| - 1] != ')')
    requires AllHex(hex)
    ensures ParseLine(tag + "(" + name + ")= " + hex) == Ok(ManifestItem(name, ChecksumTypeOf(tag), hex))
  {
    var line := tag + "(" + name + ")= " + hex;
    var p, e := |tag|, |line| - |hex|;
    var q := p + |name| + 1;
    assert line[p + 1..q + 1] == name + ")" && line[..p] == tag && line[e..] == hex by {
      RenderedPieces(tag, name, hex);
    }
    assert TrimEndMatches(TrimStartMatches(line[p + 1..q + 1], '('), ')') == name by {
      RenderedName(name);
    }
    RenderedSplitPoints(tag, name, hex);
    ParseLineAt(line, p, e, q);
  }

  lemma RenderedPieces(tag: string, name: string, hex: string)
    ensures var line := tag + "(" + name + ")= " + hex;
      && line[..|tag|] == tag
      && line[|tag| + 1..|tag| + |name| + 2] == name + ")"
      && line[|line| - |hex|..] == hex
  {
  }

  /** Where the three split points of a rendered line fall. */
  lemma RenderedSplitPoints(tag: string, name: string, hex: string)
    requires '(' !in tag && AllHex(hex)
    ensures var line := tag + "(" + name + ")= " + hex;
      && '(' in line && IndexOf(line, '(') == |tag|
      && ChecksumStart(line) == |line| - |hex|
      && ')' in line[|tag|..|line| - |hex|]
      && |tag| + LastIndexOf(line[|tag|..|line| - |hex|], ')') == |tag| + |name| + 1
  {
    var line := tag + "(" + name + ")= " + hex;
    var p, e := |tag|, |line| - |hex|;
    assert line[..p] == tag && line[p] == '(';
    IndexOfUnique(line, '(', p);
    assert line[e..] == hex && line[e - 1] == ' ';
    ChecksumStartUnique(line, e);
    var mid := line[p..e];
    assert mid == "(" + name + ")= ";
    assert mid[|name| + 1] == ')' && mid[|name| + 2..] == "= ";
    LastIndexOfUnique(mid, ')', |name| + 1);
  }

  /** A name that neither starts with '(' nor ends with ')' survives the two
      trims once its closing ')' is put back. */
  lemma RenderedName(name: string)
    requires name == [] || (name[0] != '(' && name[|name| - 1] != ')')
    ensures TrimEndMatches(TrimStartMatches(name + ")", '('), ')') == name
  {
    TrimStartMatchesUnique(name + ")", '(', name + ")");
    assert (name + ")")[..|name|] == name;
    assert TrimEndMatches(name, ')') == name;
  }

  /** `ParseLine` once the three split points of the line are known. */
  lemma ParseLineAt(line: string, p: nat, e: nat, q: nat)
    requires '(' in line && IndexOf(line, '(') == p && ChecksumStart(line) == e && p < e
    requires ')' in line[p..e] && p + LastIndexOf(line[p..e], ')') == q
    ensures ParseLine(line) ==
      Ok(ManifestItem(TrimEndMatches(TrimStartMatches(line[p + 1..q + 1], '('), ')'), ChecksumTypeOf(line[..p]), line[e..]))
  {
    BothEndsAt(line, p, e, q);
    ParseLineFromBothEndsCorrect(line);
  }

  /** The line loop of `parse_mf` as a specification: every line parses, in
      order, and the first line that does not aborts the whole manifest. */
  function ParseAll(lines: seq<string>): Result<seq<ManifestItem>> {
    if lines == [] then Ok([])
    else
      match ParseLine(lines[0])
      case Err(e) => Err(e)
      case Ok(item) =>
        match ParseAll(lines[1..])
        case Err(e) => Err(e)
        case Ok(items) => Ok([item] + items)
  }

  function Prepend(items: seq<ManifestItem>, r: Result<seq<ManifestItem>>): Result<seq<ManifestItem>> {
    match r
    case Err(e) => Err(e)
    case Ok(rest) => Ok(items + rest)
  }

  /** `parse_mf`: the items of the manifest text, one per line of
      `str::lines`, or the error of the first line whose `unwrap` panics. */
  method ParseMf(mfContents: string) returns (r: Result<seq<ManifestItem>>)
    ensures r == ParseAll(Lines(mfContents))
  {
    var items: seq<ManifestItem> := [];
    var lines := Lines(mfContents);
    assert lines[0..] == lines;
    PrependNothing(ParseAll(lines));
    for k := 0 to |lines|
      invariant ParseAll(lines) == Prepend(items, ParseAll(lines[k..]))
    {
      ParseAllStep(lines, k);
      var item := ParseLine(lines[k]);
      if item.Err? {
        return Err(item.error);
      }
      PrependTwice(items, [item.value], ParseAll(lines[k + 1..]));
      items := items + [item.value];
    }
    assert lines[|lines|..] == [];
    assert items + [] == items;
    return Ok(items);
  }

  lemma PrependNothing(r: Result<seq<ManifestItem>>)
    ensures Prepend([], r) == r
  {
    if r.Ok? {
      assert [] + r.value == r.value;
    }
  }

  lemma PrependTwice(first: seq<ManifestItem>, second: seq<ManifestItem>, r: Result<seq<ManifestItem>>)
    ensures Prepend(first, Prepend(second, r)) == Prepend(first + second, r)
  {
    if r.Ok? {
      assert first + (second + r.value) == first + second + r.value;
    }
  }

  /** One step of the line loop: the line at `k` either aborts the parse or
      puts its item in front of the items of the lines after it. */
  lemma ParseAllStep(lines: seq<string>, k: nat)
    requires k < |lines|
    ensures ParseAll(lines[k..]) ==
      if ParseLine(lines[k]).Err? then Err(ParseLine(lines[k]).error)
      else Prepend([ParseLine(lines[k]).value], ParseAll(lines[k + 1..]))
  {
    assert lines[k..][1..] == lines[k + 1..];
  }

  /** One item per line: the manifest parses exactly when every line does,
      and then its i-th item is the parse of its i-th line. */
  lemma {:induction false} ParseAllOneItemPerLine(lines: seq<string>)
    ensures ParseAll(lines).Ok? <==> forall k :: 0 <= k < |lines| ==> ParseLine(lines[k]).Ok?
    ensures ParseAll(lines).Ok? ==>
      |ParseAll(lines).value| == |lines| &&
      forall k :: 0 <= k < |lines| ==> ParseAll(lines).value[k] == ParseLine(lines[k]).value
  {
    if lines != [] {
      ParseAllOneItemPerLine(lines[1..]);
      assert forall k :: 1 <= k < |lines| ==> lines[1..][k - 1] == lines[k];
    }
  }

  /** A failed parse reports the error of the first line that fails. */
  lemma {:induction false} ParseAllFirstError(lines: seq<string>)
    ensures ParseAll(lines).Err? ==>
      exists k :: 0 <= k < |lines| && ParseLine(lines[k]) == Err(ParseAll(lines).error) &&
        forall m :: 0 <= m < k ==> ParseLine(lines[m]).Ok?
  {
    if lines != [] && ParseAll(lines).Err? && ParseLine(lines[0]).Ok? {
      ParseAllFirstError(lines[1..]);
      var k :| 0 <= k < |lines| - 1 && ParseLine(lines[1..][k]) == Err(ParseAll(lines).error) &&
        forall m :: 0 <= m < k ==> ParseLine(lines[1..][m]).Ok?;
      assert forall m :: 1 <= m < k + 1 ==> lines[m] == lines[1..][m - 1];
      assert ParseLine(lines[k + 1]) == Err(ParseAll(lines).error);
    }
  }

  /** The line `openssl dgst -sha1` writes for an item, the form OVF `.mf`
      files hold. */
  function RenderItem(item: ManifestItem): string {
    "SHA1(" + item.name + ")= " + item.checksum
  }

  /** An item that survives rendering: a SHA-1 checksum of hex digits and a
      name on one line that does not start with '(' or end with ')'. */
  predicate Renderable(item: ManifestItem) {
    && item.checksumType == SHA1
    && AllHex(item.checksum)
    && '\n' !in item.name
    && (item.name == [] || (item.name[0] != '(' && item.name[|item.name| - 1] != ')'))
  }

  function RenderLines(items: seq<ManifestItem>): (lines: seq<string>)
    ensures |lines| == |items|
    ensures forall k :: 0 <= k < |items| ==> lines[k] == RenderItem(items[k])
  {
    if items == [] then [] else [RenderItem(items[0])] + RenderLines(items[1..])
  }

  /** A rendered line is one line of the manifest text and parses back. */
  lemma RenderedLineShape(item: ManifestItem)
    requires Renderable(item)
    ensures PlainLine(RenderItem(item))
    ensures ParseLine(RenderItem(item)) == Ok(item)
  {
    var line := RenderItem(item);
    assert PlainLine(line) by {
      assert '\n' !in item.checksum;
      assert line == "SHA1(" + item.name + ")= " + item.checksum;
    }
    assert ParseLine(line) == Ok(item) by {
      assert line == "SHA1" + "(" + item.name + ")= " + item.checksum;
      ParseLineRoundTrip("SHA1", item.name, item.checksum);
      assert ChecksumTypeOf("SHA1") == SHA1;
    }
  }

  lemma {:induction false} ParseAllRendered(items: seq<ManifestItem>)
    requires forall k :: 0 <= k < |items| ==> Renderable(items[k])
    ensures ParseAll(RenderLines(items)) == Ok(items)
  {
    if items != [] {
      RenderedLineShape(items[0]);
      ParseAllRendered(items[1..]);
      assert RenderLines(items)[1..] == RenderLines(items[1..]);
      assert [items[0]] + items[1..] == items;
    }
  }

  /** Writing a manifest as `openssl dgst -sha1` does, one line per item each
      ended by a newline, and parsing it back gives the same items in the
      same order; the unit test's manifest, whose second name holds
      parentheses, is one instance. */
  lemma ParseMfRoundTrip(items: seq<ManifestItem>)
    requires forall k :: 0 <= k < |items| ==> Renderable(items[k])
    ensures ParseAll(Lines(JoinLines(RenderLines(items)))) == Ok(items)
  {
    var lines := RenderLines(items);
    forall k | 0 <= k < |lines|
      ensures PlainLine(lines[k])
    {
      RenderedLineShape(items[k]);
    }
    LinesJoinLines(lines);
    ParseAllRendered(items);
  }
}
