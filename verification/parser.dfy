/** backend/parser.py: turning a book file into a cleaned text file and a
    metadata file under the data directory, once per distinct file content.
    The content hash of every file that made it through is appended to a
    ledger file, which is read back into a set of known hashes. */
module Parser {
  import opened Wrappers
  import opened Py
  import Records

  /** Files with fewer words than this are skipped as unreadable. */
  const MIN_WORD_THRESHOLD: nat := 20

  // ---------------------------------------------------------------------------
  // normalize_filename
  // ---------------------------------------------------------------------------

  /** Characters `normalize_filename` keeps as they are. */
  predicate SafeChar(c: char) {
    IsAlnum(c) || c == '_' || c == '-'
  }

  /** Replaces every character that is not alphanumeric, `_` or `-` by `_`. */
  function NormalizeFilename(name: string): (r: string)
    ensures |r| == |name|
    ensures All(SafeChar, r)
    ensures forall i :: 0 <= i < |name| ==> SafeChar(name[i]) ==> r[i] == name[i]
    ensures forall i :: 0 <= i < |name| ==> !SafeChar(name[i]) ==> r[i] == '_'
  {
    if |name| == 0 then ""
    else [if SafeChar(name[0]) then name[0] else '_'] + NormalizeFilename(name[1..])
  }

  /** A name is left unchanged exactly when it is already made of safe
      characters; so normalizing twice is normalizing once. */
  lemma NormalizeFixedPoint(name: string)
    ensures NormalizeFilename(name) == name <==> All(SafeChar, name)
    ensures NormalizeFilename(NormalizeFilename(name)) == NormalizeFilename(name)
  {
    var r := NormalizeFilename(name);
    if All(SafeChar, name) {
      assert forall i :: 0 <= i < |name| ==> r[i] == name[i];
    }
    var rr := NormalizeFilename(r);
    assert forall i :: 0 <= i < |r| ==> rr[i] == r[i];
  }

  // ---------------------------------------------------------------------------
  // clean_text
  // ---------------------------------------------------------------------------

  /** `line.strip() for line in lines if line.strip()`. */
  function StripLines(lines: seq<string>): (r: seq<string>)
    ensures forall i :: 0 <= i < |r| ==> |r[i]| > 0 && Stripped(r[i])
  {
    if |lines| == 0 then []
    else (if Strip(lines[0]) != [] then [Strip(lines[0])] else []) + StripLines(lines[1..])
  }

  /** `clean_text`: the non-blank lines, each stripped, joined by single spaces.
      The lines are the runs between line breaks; the empty lines `splitlines`
      would also produce are blank and dropped anyway. */
  function CleanText(text: string): string {
    Join(" ", StripLines(Runs(NotLineBreak, text)))
  }

  /** Stripping lines keeps a property every line has. */
  lemma {:induction false} StripLinesInherit(q: char -> bool, lines: seq<string>)
    requires forall i :: 0 <= i < |lines| ==> All(q, lines[i])
    ensures forall i :: 0 <= i < |StripLines(lines)| ==> All(q, StripLines(lines)[i])
  {
    if |lines| > 0 {
      StripInherits(q, lines[0]);
      StripLinesInherit(q, lines[1..]);
    }
  }

  /** Stripping lines and dropping the blank ones keeps the words. */
  lemma {:induction false} StripLinesWords(lines: seq<string>)
    ensures RunsAll(NotSpace, StripLines(lines)) == RunsAll(NotSpace, lines)
  {
    if |lines| > 0 {
      var head := if Strip(lines[0]) != [] then [Strip(lines[0])] else [];
      StripLinesWords(lines[1..]);
      RunsAllAppend(NotSpace, head, StripLines(lines[1..]));
      StripKeepsWords(lines[0]);
      if Strip(lines[0]) == [] {
        assert Words(Strip(lines[0])) == [];
      } else {
        assert RunsAll(NotSpace, head) == Words(Strip(lines[0])) + RunsAll(NotSpace, []);
      }
    }
  }

  /** The cleaned text is one line, has no whitespace at either end, and
      splits into exactly the words of the original. */
  lemma CleanTextShape(text: string)
    ensures All(NotLineBreak, CleanText(text))
    ensures Stripped(CleanText(text))
    ensures Words(CleanText(text)) == Words(text)
  {
    var lines := Runs(NotLineBreak, text);
    var xs := StripLines(lines);
    StripLinesInherit(NotLineBreak, lines);
    JoinInherits(NotLineBreak, " ", xs);
    if |xs| > 0 {
      JoinEnds(" ", xs);
    }
    RunsOfJoin(NotSpace, ' ', xs);
    StripLinesWords(lines);
    RunsRefine(NotSpace, NotLineBreak, text);
  }

  /** Cleaning a cleaned text changes nothing. */
  lemma CleanTextIdempotent(text: string)
    ensures CleanText(CleanText(text)) == CleanText(text)
  {
    var c := CleanText(text);
    CleanTextShape(text);
    if |c| > 0 {
      RunsOfAll(NotLineBreak, c);
      StripOfStripped(c);
      assert StripLines([c]) == [c] + StripLines([]);
    }
  }

  // ---------------------------------------------------------------------------
  // tokenize and inferred_tags
  // ---------------------------------------------------------------------------

  predicate NotUpper(c: char) {
    !IsUpper(c)
  }

  /** `re.findall(r'\b\w+\b', text.lower())`: the maximal runs of word
      characters of the lower-cased text. */
  function Tokenize(text: string): (r: seq<string>)
    ensures forall i :: 0 <= i < |r| ==> |r[i]| > 0 && All(IsWordChar, r[i]) && All(NotUpper, r[i])
  {
    var low := LowerStr(text);
    RunsInherit(IsWordChar, NotUpper, low);
    Runs(IsWordChar, low)
  }

  /** A token never contains `-`: a hyphenated keyword can never match. */
  lemma TokenHasNoHyphen(text: string, t: string)
    requires t in Tokenize(text)
    ensures '-' !in t
    ensures t != "self-determination"
  {
    var i :| 0 <= i < |Tokenize(text)| && Tokenize(text)[i] == t;
    assert "self-determination"[4] == '-';
  }

  function TokenSet(text: string): set<string> {
    set t | t in Tokenize(text)
  }

  /** `keywords & tokens` is non-empty. */
  predicate Meets(keywords: set<string>, tokens: set<string>) {
    keywords * tokens != {}
  }

  const ISLAMIC_KEYWORDS: set<string> := {"islam", "quran", "sharia", "ummah"}
  const DECOLONIAL_KEYWORDS: set<string> := {"indigenous", "ancestral", "customary", "tribal"}
  const POLITICAL_KEYWORDS: set<string> := {"sovereignty", "nationhood", "self-determination"}
  const PHILOSOPHY_KEYWORDS: set<string> := {"philosophy", "epistemology", "metaphysics"}
  const GEOPOLITICS_KEYWORDS: set<string> := {"eurasia", "china", "russia", "usa", "geopolitics"}

  /** The keyword rules of `inferred_tags`, in the order they are tried. */
  const TAG_RULES: seq<(string, set<string>)> := [
    ("Islamic Studies", ISLAMIC_KEYWORDS),
    ("Decolonial", DECOLONIAL_KEYWORDS),
    ("Political Theory", POLITICAL_KEYWORDS),
    ("Philosophy", PHILOSOPHY_KEYWORDS),
    ("Geopolitics", GEOPOLITICS_KEYWORDS)
  ]

  /** The label of every rule whose keywords meet the tokens, in rule order. */
  function RuleTags(rules: seq<(string, set<string>)>, tokens: set<string>): seq<string> {
    if |rules| == 0 then []
    else (if Meets(rules[0].1, tokens) then [rules[0].0] else []) + RuleTags(rules[1..], tokens)
  }

  /** `inferred_tags(text)`: the labels whose rule fires, capped at five. */
  function InferredTags(text: string): (tags: seq<string>)
    ensures |tags| <= 5
  {
    Slice(RuleTags(TAG_RULES, TokenSet(text)), 0, 5)
  }

  /** Index of a label in `labels`, or `|labels|` when absent. */
  function LabelIndex(labels: seq<string>, l: string): nat {
    if |labels| == 0 || labels[0] == l then 0 else 1 + LabelIndex(labels[1..], l)
  }

  function Labels(rules: seq<(string, set<string>)>): (r: seq<string>)
    ensures |r| == |rules| && forall i :: 0 <= i < |rules| ==> r[i] == rules[i].0
  {
    if |rules| == 0 then [] else [rules[0].0] + Labels(rules[1..])
  }

  /** Pairwise distinct labels, as in a table of tag rules. */
  predicate DistinctLabels(rules: seq<(string, set<string>)>) {
    forall i, j :: 0 <= i < j < |rules| ==> rules[i].0 != rules[j].0
  }

  /** `l` is the label of the first rule carrying it, and that rule fires. */
  predicate Sourced(rules: seq<(string, set<string>)>, tokens: set<string>, l: string) {
    && LabelIndex(Labels(rules), l) < |rules|
    && rules[LabelIndex(Labels(rules), l)].0 == l
    && Meets(rules[LabelIndex(Labels(rules), l)].1, tokens)
  }

  /** Every produced label is the label of the first rule carrying it, and
      that rule fires. */
  lemma {:induction false} RuleTagsFromRules(rules: seq<(string, set<string>)>, tokens: set<string>)
    requires DistinctLabels(rules)
    ensures var r := RuleTags(rules, tokens);
      && |r| <= |rules|
      && forall a :: 0 <= a < |r| ==> Sourced(rules, tokens, r[a])
  {
    if |rules| > 0 {
      var rest := rules[1..];
      DistinctTail(rules);
      RuleTagsFromRules(rest, tokens);
      var r, r' := RuleTags(rules, tokens), RuleTags(rest, tokens);
      var head := if Meets(rules[0].1, tokens) then [rules[0].0] else [];
      assert r == head + r';
      forall a | 0 <= a < |r|
        ensures Sourced(rules, tokens, r[a])
      {
        if a < |head| {
          assert r[a] == rules[0].0 == Labels(rules)[0];
        } else {
          assert r[a] == r'[a - |head|];
          SourcedTail(rules, tokens, r'[a - |head|]);
        }
      }
    }
  }

  /** Dropping the first rule keeps the labels distinct. */
  lemma DistinctTail(rules: seq<(string, set<string>)>)
    requires DistinctLabels(rules) && |rules| > 0
    ensures DistinctLabels(rules[1..])
  {
    var rest := rules[1..];
    forall i, j | 0 <= i < j < |rest|
      ensures rest[i].0 != rest[j].0
    {
      assert rest[i] == rules[i + 1] && rest[j] == rules[j + 1];
    }
  }

  /** A label sourced in the rules after the first is sourced in all of them. */
  lemma SourcedTail(rules: seq<(string, set<string>)>, tokens: set<string>, l: string)
    requires DistinctLabels(rules) && |rules| > 0
    requires Sourced(rules[1..], tokens, l)
    ensures Sourced(rules, tokens, l)
  {
    var rest := rules[1..];
    var ls, ls' := Labels(rules), Labels(rest);
    assert ls[1..] == ls';
    var x := LabelIndex(ls', l);
    assert rules[1 + x] == rest[x];
    assert ls[0] != l;
    assert LabelIndex(ls, l) == 1 + x;
  }

  /** A label produced by the rules after the first is not the first rule's
      label, and its position counts from the second rule. */
  lemma TailLabels(rules: seq<(string, set<string>)>, tokens: set<string>)
    requires DistinctLabels(rules) && |rules| > 0
    ensures forall a :: 0 <= a < |RuleTags(rules[1..], tokens)| ==>
              && RuleTags(rules[1..], tokens)[a] != rules[0].0
              && LabelIndex(Labels(rules), RuleTags(rules[1..], tokens)[a]) ==
                 1 + LabelIndex(Labels(rules[1..]), RuleTags(rules[1..], tokens)[a])
  {
    var rest := rules[1..];
    RuleTagsFromRules(rest, tokens);
    var r' := RuleTags(rest, tokens);
    var ls, ls' := Labels(rules), Labels(rest);
    assert ls[1..] == ls';
    forall a | 0 <= a < |r'|
      ensures r'[a] != rules[0].0
    {
      assert rules[1 + LabelIndex(ls', r'[a])] == rest[LabelIndex(ls', r'[a])];
    }
  }

  /** With distinct labels, a rule's label is produced exactly when the rule fires. */
  lemma {:induction false} RuleTagsFire(rules: seq<(string, set<string>)>, tokens: set<string>)
    requires DistinctLabels(rules)
    ensures forall i :: 0 <= i < |rules| ==> (rules[i].0 in RuleTags(rules, tokens) <==> Meets(rules[i].1, tokens))
  {
    if |rules| > 0 {
      var rest := rules[1..];
      RuleTagsFire(rest, tokens);
      TailLabels(rules, tokens);
      var r, r' := RuleTags(rules, tokens), RuleTags(rest, tokens);
      assert r == (if Meets(rules[0].1, tokens) then [rules[0].0] else []) + r';
      forall i | 0 < i < |rules|
        ensures rules[i].0 in r <==> Meets(rules[i].1, tokens)
      {
        assert rules[i] == rest[i - 1];
        assert rules[i].0 != rules[0].0;
      }
    }
  }

  /** Labels ordered by their first position in `ls`. */
  predicate OrderedIn(ls: seq<string>, r: seq<string>) {
    forall a, b :: 0 <= a < b < |r| ==> LabelIndex(ls, r[a]) < LabelIndex(ls, r[b])
  }

  /** The inductive step of `RuleTagsOrdered`: prefixing the first rule's
      label, or nothing, keeps the order. */
  lemma OrderedStep(rules: seq<(string, set<string>)>, tokens: set<string>)
    requires DistinctLabels(rules) && |rules| > 0
    requires OrderedIn(Labels(rules[1..]), RuleTags(rules[1..], tokens))
    ensures OrderedIn(Labels(rules), RuleTags(rules, tokens))
  {
    var rest := rules[1..];
    TailLabels(rules, tokens);
    var r, r' := RuleTags(rules, tokens), RuleTags(rest, tokens);
    var ls := Labels(rules);
    if Meets(rules[0].1, tokens) {
      assert r == [rules[0].0] + r';
      assert LabelIndex(ls, rules[0].0) == 0;
      forall a, b | 0 <= a < b < |r|
        ensures LabelIndex(ls, r[a]) < LabelIndex(ls, r[b])
      {
        assert r[b] == r'[b - 1];
        if a > 0 {
          assert r[a] == r'[a - 1];
        }
      }
    } else {
      assert r == r';
    }
  }

  /** With distinct labels, labels come out in the rules' order. */
  lemma {:induction false} RuleTagsOrdered(rules: seq<(string, set<string>)>, tokens: set<string>)
    requires DistinctLabels(rules)
    ensures OrderedIn(Labels(rules), RuleTags(rules, tokens))
  {
    if |rules| > 0 {
      RuleTagsOrdered(rules[1..], tokens);
      OrderedStep(rules, tokens);
    }
  }

  /** The five labels of the rules; they are pairwise distinct. */
  lemma TagRulesDistinct()
    ensures |TAG_RULES| == 5
    ensures DistinctLabels(TAG_RULES)
  {
  }

  /** Capping the labels at `cap`, at least the number of rules, keeps them all. */
  lemma CappedRuleTags(rules: seq<(string, set<string>)>, tokens: set<string>, cap: nat)
    requires DistinctLabels(rules) && |rules| <= cap
    ensures var tags := Slice(RuleTags(rules, tokens), 0, cap);
      && tags == RuleTags(rules, tokens)
      && (forall i :: 0 <= i < |rules| ==> (rules[i].0 in tags <==> Meets(rules[i].1, tokens)))
      && (forall a :: 0 <= a < |tags| ==> tags[a] in Labels(rules))
      && (forall a, b :: 0 <= a < b < |tags| ==>
            LabelIndex(Labels(rules), tags[a]) < LabelIndex(Labels(rules), tags[b]))
  {
    RuleTagsFromRules(rules, tokens);
    RuleTagsFire(rules, tokens);
    RuleTagsOrdered(rules, tokens);
    var r := RuleTags(rules, tokens);
    assert Slice(r, 0, cap) == r[..|r|];
    forall a | 0 <= a < |r|
      ensures r[a] in Labels(rules)
    {
      assert Labels(rules)[LabelIndex(Labels(rules), r[a])] == r[a];
    }
  }

  /** A tag is inferred exactly when some keyword of its rule is a token of
      the text; every tag is a rule's label; tags come in rule order, so none
      appears twice; and since there are only five rules, the cap of five
      never cuts anything. */
  lemma InferredTagsSpec(text: string)
    ensures var tags := InferredTags(text);
      && tags == RuleTags(TAG_RULES, TokenSet(text))
      && (forall i :: 0 <= i < |TAG_RULES| ==>
            (TAG_RULES[i].0 in tags <==> Meets(TAG_RULES[i].1, TokenSet(text))))
      && (forall a :: 0 <= a < |tags| ==> tags[a] in Labels(TAG_RULES))
      && (forall a, b :: 0 <= a < b < |tags| ==>
            LabelIndex(Labels(TAG_RULES), tags[a]) < LabelIndex(Labels(TAG_RULES), tags[b]))
  {
    TagRulesDistinct();
    CappedRuleTags(TAG_RULES, TokenSet(text), 5);
  }

  /** One rule's label is inferred exactly when that rule fires. */
  lemma InferredTagAt(text: string, i: nat)
    requires i < |TAG_RULES|
    ensures TAG_RULES[i].0 in InferredTags(text) <==> Meets(TAG_RULES[i].1, TokenSet(text))
  {
    TagRulesDistinct();
    CappedRuleTags(TAG_RULES, TokenSet(text), 5);
  }

  lemma PoliticalKeywordsMeet(tokens: set<string>)
    ensures Meets(POLITICAL_KEYWORDS, tokens) <==>
      "sovereignty" in tokens || "nationhood" in tokens || "self-determination" in tokens
  {
    if Meets(POLITICAL_KEYWORDS, tokens) {
      var x :| x in POLITICAL_KEYWORDS * tokens;
    }
    if "sovereignty" in tokens { assert "sovereignty" in POLITICAL_KEYWORDS * tokens; }
    if "nationhood" in tokens { assert "nationhood" in POLITICAL_KEYWORDS * tokens; }
    if "self-determination" in tokens { assert "self-determination" in POLITICAL_KEYWORDS * tokens; }
  }

  /** "Political Theory" is inferred exactly when "sovereignty" or "nationhood"
      is a token: its third keyword has a hyphen and is never a token. */
  lemma PoliticalTheoryTag(text: string)
    ensures "Political Theory" in InferredTags(text) <==>
            "sovereignty" in Tokenize(text) || "nationhood" in Tokenize(text)
  {
    InferredTagAt(text, 2);
    PoliticalKeywordsMeet(TokenSet(text));
    if "self-determination" in Tokenize(text) {
      TokenHasNoHyphen(text, "self-determination");
    }
  }

  // ---------------------------------------------------------------------------
  // The ledger of parsed hashes
  // ---------------------------------------------------------------------------

  /** Reading a text file yields lines ended by `\n` or `\r` (universal newlines). */
  predicate NotNewline(c: char) {
    c != '\n' && c != '\r'
  }

  /** The non-blank lines of a ledger, stripped, as a set. */
  function Recorded(lines: seq<string>): set<string> {
    set l | l in lines && Strip(l) != [] :: Strip(l)
  }

  /** The module-level load of `parsed_hashes`: a missing ledger reads as empty. */
  function LoadLedger(log: string): set<string> {
    Recorded(Runs(NotNewline, log))
  }

  /** Every line the program writes ends with a newline. */
  predicate Terminated(log: string) {
    |log| == 0 || log[|log| - 1] == '\n'
  }

  predicate IsHexChar(c: char) {
    ('0' <= c <= '9') || ('a' <= c <= 'f')
  }

  /** `hashlib.md5().hexdigest()`: 32 lower-case hexadecimal digits. */
  predicate IsHexDigest(h: string) {
    |h| == 32 && All(IsHexChar, h)
  }

  /** One newline-terminated ledger line. */
  function LedgerLine(h: string): string {
    h + "\n"
  }

  lemma HexLine(h: string)
    requires |h| > 0 && All(IsHexChar, h)
    ensures Runs(NotNewline, LedgerLine(h)) == [h]
    ensures Strip(h) == h
  {
    HexRuns(h);
    HexStripped(h);
  }

  /** A hex line reads back as itself. */
  lemma HexRuns(h: string)
    requires |h| > 0 && All(IsHexChar, h)
    ensures Runs(NotNewline, LedgerLine(h)) == [h]
  {
    assert LedgerLine(h) == h + ['\n'] + "";
    RunsSplit(NotNewline, h, '\n', "");
    assert All(NotNewline, h) by {
      forall i | 0 <= i < |h|
        ensures NotNewline(h[i])
      {
        assert IsHexChar(h[i]);
      }
    }
    RunsOfAll(NotNewline, h);
  }

  /** A hex string has no surrounding whitespace. */
  lemma HexStripped(h: string)
    requires |h| > 0 && All(IsHexChar, h)
    ensures Strip(h) == h
  {
    assert IsHexChar(h[0]) && IsHexChar(h[|h| - 1]);
    StripOfStripped(h);
  }

  /** Appending a hash line to a terminated ledger adds exactly that hash to
      what is read back, and leaves the ledger terminated. */
  lemma LedgerAppend(log: string, h: string)
    requires Terminated(log) && IsHexDigest(h)
    ensures Terminated(log + LedgerLine(h))
    ensures LoadLedger(log + LedgerLine(h)) == LoadLedger(log) + {h}
  {
    HexLine(h);
    var lines := Runs(NotNewline, log);
    if |log| == 0 {
      assert log + LedgerLine(h) == LedgerLine(h);
    } else {
      var a := log[..|log| - 1];
      assert log + LedgerLine(h) == a + ['\n'] + LedgerLine(h);
      RunsSplit(NotNewline, a, '\n', LedgerLine(h));
      assert log == a + ['\n'] + "";
      RunsSplit(NotNewline, a, '\n', "");
    }
    assert Runs(NotNewline, log + LedgerLine(h)) == lines + [h];
    RecordedSnoc(lines, h);
  }

  /** A line that is its own non-empty strip adds itself to the recorded hashes. */
  lemma RecordedSnoc(lines: seq<string>, h: string)
    requires h != [] && Strip(h) == h
    ensures Recorded(lines + [h]) == Recorded(lines) + {h}
  {
    forall l | l in lines + [h]
      ensures l in lines || l == h
    {
    }
  }

  /** A ledger whose last line lost its newline merges with the next hash:
      neither hash is read back. */
  lemma LedgerUnterminated(prev: string, h: string)
    requires IsHexDigest(prev) && IsHexDigest(h)
    ensures LoadLedger(prev + LedgerLine(h)) == {prev + h}
    ensures prev !in LoadLedger(prev + LedgerLine(h)) && h !in LoadLedger(prev + LedgerLine(h))
  {
    assert All(IsHexChar, prev + h);
    HexLine(prev + h);
    assert prev + LedgerLine(h) == LedgerLine(prev + h);
  }

  // ---------------------------------------------------------------------------
  // parse_and_save
  // ---------------------------------------------------------------------------

  /** The metadata file written next to each text file. */
  datatype Metadata = Metadata(
    domain: string,
    filename: string,
    language: string,
    tags: seq<string>,
    length: nat,
    words: nat,
    filetype: string,
    path: string,
    hash: string,
    parsedAt: string)

  /** The fields of a metadata file the readers look at. */
  function View(m: Metadata): Records.MetaView {
    Records.MetaView(Some(m.domain), Some(m.filename), Some(m.language), Some(m.tags))
  }

  /** The file-system and library calls of the parser, as parameters:
      `isFile` is `os.path.isfile`; `hashFile` is the MD5 hex digest of the
      content (`None` when reading raises); `parseFile` gives the extracted
      text and file type (`None` for an unsupported or failed file);
      `detect` is language detection (`None` when it raises); `canWrite`
      tells whether writing a data file succeeds; `canAppendLog` whether
      appending to the ledger succeeds; `now` is the ISO time stamp. */
  datatype Io = Io(
    isFile: string -> bool,
    hashFile: string -> Option<string>,
    parseFile: string -> Option<(string, string)>,
    detect: string -> Option<string>,
    canWrite: string -> bool,
    canAppendLog: bool,
    now: string)

  /** What the parser has produced so far: the ledger text, the in-memory
      hash set, and the text and metadata files by name. */
  datatype Ingest = Ingest(
    log: string,
    hashes: set<string>,
    texts: map<string, string>,
    metas: map<string, Metadata>)

  /** Hashing raises out of `parse_and_save`. */
  datatype IngestError = HashFailed(path: string)

  /** The path separators of Windows paths. */
  predicate IsSep(c: char) {
    c == '/' || c == '\\'
  }

  /** `os.path.basename`: what follows the last separator. */
  function BaseName(path: string): (r: string)
    ensures |r| <= |path| && r == path[|path| - |r|..]
    ensures NoneOf(IsSep, r)
    ensures |r| < |path| ==> IsSep(path[|path| - |r| - 1])
  {
    if |path| == 0 || IsSep(path[|path| - 1]) then ""
    else
      var init := path[..|path| - 1];
      var r := BaseName(init);
      BaseNameStep(path, r);
      r + [path[|path| - 1]]
  }

  /** One more non-separator character extends the base name. */
  lemma BaseNameStep(path: string, r: string)
    requires |path| > 0 && !IsSep(path[|path| - 1])
    requires var init := path[..|path| - 1];
      && |r| <= |init| && r == init[|init| - |r|..] && NoneOf(IsSep, r)
      && (|r| < |init| ==> IsSep(init[|init| - |r| - 1]))
    ensures var r' := r + [path[|path| - 1]];
      && |r'| <= |path| && r' == path[|path| - |r'|..] && NoneOf(IsSep, r')
      && (|r'| < |path| ==> IsSep(path[|path| - |r'| - 1]))
  {
    var n := |path|;
    var init := path[..n - 1];
    var r' := r + [path[n - 1]];
    assert path == init + [path[n - 1]];
    assert r' == path[n - |r'|..];
    if |r'| < n {
      assert path[n - |r'| - 1] == init[|init| - |r| - 1];
    }
  }

  /** The stem of the output files: `domain__base__lang`. */
  function Stem(domain: string, base: string, lang: string): string {
    domain + "__" + base + "__" + lang
  }

  /** The two files written for one parsed book. */
  datatype Output = Output(stem: string, text: string, meta: Metadata)

  /** The text-dependent part of `parse_and_save` once the hash is known: the
      word gate, cleaning, language detection, naming and the metadata. */
  function Prepare(io: Io, path: string, domain: string, h: string): (r: Option<Output>)
    ensures r.Some? ==>
      var out := r.value;
      && io.parseFile(path).Some?
      && |Words(io.parseFile(path).value.0)| >= MIN_WORD_THRESHOLD
      && out.text == CleanText(io.parseFile(path).value.0)
      && out.meta.domain == domain && out.meta.hash == h && out.meta.path == path
      && out.meta.filename == NormalizeFilename(SplitExtRoot(BaseName(path)))
      && out.stem == Stem(domain, out.meta.filename, out.meta.language)
      && out.meta.words == |Words(out.text)| >= MIN_WORD_THRESHOLD
      && out.meta.length == |out.text|
      && out.meta.tags == InferredTags(out.text)
      && (io.detect(out.text).Some? ==> out.meta.language == io.detect(out.text).value)
      && (io.detect(out.text).None? ==> out.meta.language == "unknown")
      && out.meta.filetype == io.parseFile(path).value.1
      && out.meta.parsedAt == io.now
    ensures r.None? <==> io.parseFile(path).None? || |Words(io.parseFile(path).value.0)| < MIN_WORD_THRESHOLD
  {
    match io.parseFile(path)
    case None => None
    case Some((raw, filetype)) =>
      if raw == [] || |Words(raw)| < MIN_WORD_THRESHOLD then None
      else
        var text := CleanText(raw);
        CleanTextShape(raw);
        var lang := io.detect(text).GetOr("unknown");
        var base := NormalizeFilename(SplitExtRoot(BaseName(path)));
        var meta := Metadata(domain, base, lang, InferredTags(text), |text|, |Words(text)|,
                             filetype, path, h, io.now);
        Some(Output(Stem(domain, base, lang), text, meta))
  }

  function TxtName(stem: string): string {
    stem + ".txt"
  }

  function JsonName(stem: string): string {
    stem + ".json"
  }

  /** The `try` block of `parse_and_save`: write the text, then the metadata,
      then the ledger line, then remember the hash. A failing step ends the
      block; whatever was written before it stays. */
  function Save(io: Io, st: Ingest, out: Output, h: string): (r: Ingest)
    ensures st.texts.Keys <= r.texts.Keys && st.metas.Keys <= r.metas.Keys
    ensures (r.log == st.log && r.hashes == st.hashes) ||
            (r.log == st.log + LedgerLine(h) && r.hashes == st.hashes + {h})
  {
    if !io.canWrite(TxtName(out.stem)) then st
    else
      var texts := st.texts[TxtName(out.stem) := out.text];
      if !io.canWrite(JsonName(out.stem)) then st.(texts := texts)
      else
        var metas := st.metas[JsonName(out.stem) := out.meta];
        if !io.canAppendLog then st.(texts := texts, metas := metas)
        else Ingest(st.log + LedgerLine(h), st.hashes + {h}, texts, metas)
  }

  /** `parse_and_save(path, domain)`. A hash failure raises; every other
      problem returns with nothing recorded. The ledger and the hash set
      change together, by exactly the file's hash, or not at all, and files
      are only ever added or overwritten. */
  function ParseAndSave(io: Io, st: Ingest, path: string, domain: string): (r: Result<Ingest, IngestError>)
    ensures r.Err? <==> io.isFile(path) && io.hashFile(path).None?
    ensures r.Ok? ==>
      && st.texts.Keys <= r.value.texts.Keys && st.metas.Keys <= r.value.metas.Keys
      && ((r.value.log == st.log && r.value.hashes == st.hashes) ||
          (io.hashFile(path).Some? && io.hashFile(path).value !in st.hashes &&
           r.value.log == st.log + LedgerLine(io.hashFile(path).value) &&
           r.value.hashes == st.hashes + {io.hashFile(path).value}))
  {
    if !io.isFile(path) then Ok(st)
    else
      match io.hashFile(path)
      case None => Err(HashFailed(path))
      case Some(h) =>
        if h in st.hashes then Ok(st)
        else
          match Prepare(io, path, domain, h)
          case None => Ok(st)
          case Some(out) => Ok(Save(io, st, out, h))
  }

  /** Every step of `parse_and_save` that does not depend on the hash set
      succeeds for `path`: it is a readable file of at least 20 words and all
      three writes go through. */
  predicate Durable(io: Io, path: string, domain: string) {
    && io.isFile(path)
    && io.hashFile(path).Some?
    && var h := io.hashFile(path).value;
       && Prepare(io, path, domain, h).Some?
       && var stem := Prepare(io, path, domain, h).value.stem;
          io.canWrite(TxtName(stem)) && io.canWrite(JsonName(stem)) && io.canAppendLog
  }

  /** A file already in the hash set is skipped before it is even parsed. */
  lemma DedupGate(io: Io, st: Ingest, path: string, domain: string)
    requires io.isFile(path) && io.hashFile(path).Some? && io.hashFile(path).value in st.hashes
    ensures ParseAndSave(io, st, path, domain) == Ok(st)
  {
  }

  /** A new hash is recorded exactly when every step succeeds; it then comes
      with both files written. Otherwise the ledger and hash set stay as they were. */
  lemma RecordedIff(io: Io, st: Ingest, path: string, domain: string)
    ensures var r := ParseAndSave(io, st, path, domain);
      Durable(io, path, domain) && io.hashFile(path).value !in st.hashes ==>
        var h := io.hashFile(path).value;
        var out := Prepare(io, path, domain, h).value;
        r == Ok(Ingest(st.log + LedgerLine(h), st.hashes + {h},
                       st.texts[TxtName(out.stem) := out.text],
                       st.metas[JsonName(out.stem) := out.meta]))
    ensures var r := ParseAndSave(io, st, path, domain);
      r.Ok? && !(Durable(io, path, domain) && io.hashFile(path).value !in st.hashes) ==>
        r.value.log == st.log && r.value.hashes == st.hashes
  {
  }

  /** The ledger reads back as the hash set, and it ends in a newline. */
  predicate LedgerOk(st: Ingest) {
    Terminated(st.log) && LoadLedger(st.log) == st.hashes
  }

  /** MD5 digests are always 32 hexadecimal digits. */
  ghost predicate HexHashes(io: Io) {
    forall p :: io.hashFile(p).Some? ==> IsHexDigest(io.hashFile(p).value)
  }

  /** `parse_and_save` keeps the ledger and the hash set in step. */
  lemma ParseAndSaveKeepsLedger(io: Io, st: Ingest, path: string, domain: string)
    requires HexHashes(io) && LedgerOk(st)
    requires ParseAndSave(io, st, path, domain).Ok?
    ensures LedgerOk(ParseAndSave(io, st, path, domain).value)
  {
    var r := ParseAndSave(io, st, path, domain).value;
    if r.hashes != st.hashes {
      LedgerAppend(st.log, io.hashFile(path).value);
    }
  }

  // ---------------------------------------------------------------------------
  // scan_all
  // ---------------------------------------------------------------------------

  /** One `(file_path, domain)` pair of the scan. */
  datatype Job = Job(path: string, domain: string)

  /** What a scan leaves behind: the state every job wrote, and the error
      the scan raises at the end, if any job raised. */
  datatype Scan = Scan(state: Ingest, failure: Option<IngestError>)

  /** `parse_and_save` raises on the job: its file exists but cannot be
      hashed. This does not depend on what has been ingested so far. */
  predicate Fails(io: Io, job: Job) {
    io.isFile(job.path) && io.hashFile(job.path).None?
  }

  /** The pool size, `cpu_count() // 2 or 1`, for `cpus` processors. */
  function Workers(cpus: nat): (w: nat)
    ensures w >= 1 && (cpus >= 2 ==> w == cpus / 2)
  {
    if cpus / 2 == 0 then 1 else cpus / 2
  }

  /** The `chunksize` `Pool.starmap` picks when given none: `n` jobs spread
      over four chunks per worker, rounded up; no chunk for no job. */
  function ChunkSize(n: nat, workers: nat): (c: nat)
    requires workers > 0
    ensures n == 0 ==> c == 0
    ensures n > 0 ==> c > 0 && (c - 1) * (4 * workers) < n <= c * (4 * workers)
  {
    if n == 0 then 0
    else
      var d := 4 * workers;
      CeilDiv(n, d);
      (n + d - 1) / d
  }

  /** Division rounding up, characterised by multiplication. */
  lemma CeilDiv(n: nat, d: nat)
    requires n > 0 && d > 0
    ensures var q := (n + d - 1) / d; q > 0 && (q - 1) * d < n <= q * d
  {
    var q, r := (n + d - 1) / d, (n + d - 1) % d;
    assert n + d - 1 == q * d + r && 0 <= r < d;
    assert (q - 1) * d == q * d - d;
  }

  /** One chunk, run by a worker as `list(itertools.starmap(...))`: the jobs
      in order until one raises, which ends the chunk. */
  function RunChunk(io: Io, st: Ingest, chunk: seq<Job>): Scan
    decreases |chunk|
  {
    if |chunk| == 0 then Scan(st, None)
    else
      match ParseAndSave(io, st, chunk[0].path, chunk[0].domain)
      case Err(e) => Scan(st, Some(e))
      case Ok(st') => RunChunk(io, st', chunk[1..])
  }

  /** The jobs cut into chunks of `c`, run one after the other. A raising
      chunk does not stop the others; the first raise is reported. */
  function RunChunks(io: Io, st: Ingest, jobs: seq<Job>, c: nat): Scan
    requires c > 0
    decreases |jobs|
  {
    if |jobs| == 0 then Scan(st, None)
    else
      var n := if |jobs| < c then |jobs| else c;
      var first := RunChunk(io, st, jobs[..n]);
      var rest := RunChunks(io, first.state, jobs[n..], c);
      Scan(rest.state, if first.failure.Some? then first.failure else rest.failure)
  }

  /** `scan_all`: `pool.starmap(parse_and_save, file_list)` on a pool for
      `cpus` processors. */
  function ScanAll(io: Io, st: Ingest, jobs: seq<Job>, cpus: nat): Scan {
    if |jobs| == 0 then Scan(st, None)
    else RunChunks(io, st, jobs, ChunkSize(|jobs|, Workers(cpus)))
  }

  /** Job `k` runs when chunks hold `c` jobs: no job before it in its chunk
      raises. */
  predicate Reached(io: Io, jobs: seq<Job>, c: nat, k: nat)
    requires c > 0 && k < |jobs|
    decreases |jobs|
  {
    if k < c then forall m :: 0 <= m < k ==> !Fails(io, jobs[m])
    else Reached(io, jobs[c..], c, k - c)
  }

  /** Job `k` runs in `scan_all` on `cpus` processors. */
  predicate ScanReaches(io: Io, jobs: seq<Job>, cpus: nat, k: nat)
    requires k < |jobs|
  {
    Reached(io, jobs, ChunkSize(|jobs|, Workers(cpus)), k)
  }

  /** Job `k`'s chunk starts at `k - k % c`, and the job runs exactly when
      none of the jobs from there up to it raises. */
  lemma ReachedIff(io: Io, jobs: seq<Job>, c: nat, k: nat)
    requires c > 0 && k < |jobs|
    ensures Reached(io, jobs, c, k) <==> forall m :: k - k % c <= m < k ==> !Fails(io, jobs[m])
  {
    ChunkStartOf(k, c);
    ReachedFrom(io, jobs, c, k, k - k % c);
  }

  /** `s` is where a chunk of `c` jobs starts: a multiple of `c`. */
  predicate IsChunkStart(s: nat, c: nat)
    requires c > 0
    decreases s
  {
    s == 0 || (s >= c && IsChunkStart(s - c, c))
  }

  /** Job `k` of a chunk starting at `s` runs exactly when none of the jobs
      from `s` up to it raises. */
  lemma {:induction false} ReachedFrom(io: Io, jobs: seq<Job>, c: nat, k: nat, s: nat)
    requires c > 0 && k < |jobs| && IsChunkStart(s, c) && s <= k < s + c
    ensures Reached(io, jobs, c, k) <==> forall m :: s <= m < k ==> !Fails(io, jobs[m])
    decreases s
  {
    if s == 0 {
      ReachedFirst(io, jobs, c, k);
    } else {
      var rest := jobs[c..];
      ReachedLater(io, jobs, c, k);
      ReachedFrom(io, rest, c, k - c, s - c);
      assert forall m :: s <= m < k ==> jobs[m] == rest[m - c];
    }
  }

  /** `k - k % c` is the start of the chunk that holds `k`. */
  lemma {:induction false} ChunkStartOf(k: nat, c: nat)
    requires c > 0
    ensures IsChunkStart(k - k % c, c) && k - k % c <= k < k - k % c + c
    decreases k
  {
    if k < c {
      ModUnique(k, c, 0, k);
    } else {
      ModShift(k, c);
      ChunkStartOf(k - c, c);
      assert (k - c) - (k - c) % c == (k - k % c) - c;
    }
  }

  /** Moving back one chunk keeps the position within the chunk. */
  lemma ModShift(k: nat, c: nat)
    requires 0 < c <= k
    ensures (k - c) % c == k % c
  {
    var q, r := k / c, k % c;
    assert k - c == (q - 1) * c + r;
    ModUnique(k - c, c, q - 1, r);
  }

  /** The remainder is the only one below the divisor. */
  lemma ModUnique(x: int, c: int, a: int, b: int)
    requires c > 0 && 0 <= b < c && x == a * c + b
    ensures x % c == b
  {
    var q, r := x / c, x % c;
    assert x == q * c + r && 0 <= r < c;
    if q > a {
      MulAtLeast(q - a, c);
    } else if q < a {
      MulAtLeast(a - q, c);
    }
    assert q * c == a * c;
  }

  lemma {:induction false} MulAtLeast(u: int, c: int)
    requires u >= 1 && c > 0
    ensures u * c >= c
  {
    if u > 1 {
      MulAtLeast(u - 1, c);
      assert u * c == (u - 1) * c + c;
    }
  }

  /** Within the first chunk, a job runs when no earlier job raises. */
  lemma ReachedFirst(io: Io, jobs: seq<Job>, c: nat, k: nat)
    requires k < c && k < |jobs|
    ensures Reached(io, jobs, c, k) <==> forall m :: 0 <= m < k ==> !Fails(io, jobs[m])
  {
  }

  /** Past the first chunk, reaching is decided in the remaining chunks. */
  lemma ReachedLater(io: Io, jobs: seq<Job>, c: nat, k: nat)
    requires 0 < c <= k < |jobs|
    ensures Reached(io, jobs, c, k) <==> Reached(io, jobs[c..], c, k - c)
  {
  }

  /** With one job per chunk every job runs. */
  lemma {:induction false} UnitChunksReachAll(io: Io, jobs: seq<Job>, k: nat)
    requires k < |jobs|
    ensures Reached(io, jobs, 1, k)
    decreases |jobs|
  {
    if k >= 1 {
      UnitChunksReachAll(io, jobs[1..], k - 1);
    }
  }

  /** When no job raises, every job runs. */
  lemma {:induction false} NoFailureReachesAll(io: Io, jobs: seq<Job>, c: nat, k: nat)
    requires c > 0 && k < |jobs|
    requires forall m :: 0 <= m < |jobs| ==> !Fails(io, jobs[m])
    ensures Reached(io, jobs, c, k)
    decreases |jobs|
  {
    if k >= c {
      assert forall m :: 0 <= m < |jobs| - c ==> jobs[c..][m] == jobs[m + c];
      NoFailureReachesAll(io, jobs[c..], c, k - c);
    }
  }

  /** A chunk keeps the ledger and the hash set in step. */
  lemma {:induction false} RunChunkKeepsLedger(io: Io, st: Ingest, chunk: seq<Job>)
    requires HexHashes(io) && LedgerOk(st)
    ensures LedgerOk(RunChunk(io, st, chunk).state)
    ensures st.hashes <= RunChunk(io, st, chunk).state.hashes
    decreases |chunk|
  {
    if |chunk| > 0 && ParseAndSave(io, st, chunk[0].path, chunk[0].domain).Ok? {
      ParseAndSaveKeepsLedger(io, st, chunk[0].path, chunk[0].domain);
      RunChunkKeepsLedger(io, ParseAndSave(io, st, chunk[0].path, chunk[0].domain).value, chunk[1..]);
    }
  }

  /** A chunk only adds hashes. */
  lemma {:induction false} RunChunkGrows(io: Io, st: Ingest, chunk: seq<Job>)
    ensures st.hashes <= RunChunk(io, st, chunk).state.hashes
    decreases |chunk|
  {
    if |chunk| > 0 {
      var r := ParseAndSave(io, st, chunk[0].path, chunk[0].domain);
      if r.Ok? {
        RunChunkGrows(io, r.value, chunk[1..]);
      }
    }
  }

  /** A chunk raises exactly when one of its jobs does. */
  lemma {:induction false} RunChunkFailure(io: Io, st: Ingest, chunk: seq<Job>)
    ensures RunChunk(io, st, chunk).failure.None? <==> forall m :: 0 <= m < |chunk| ==> !Fails(io, chunk[m])
    decreases |chunk|
  {
    if |chunk| > 0 {
      var r := ParseAndSave(io, st, chunk[0].path, chunk[0].domain);
      if r.Ok? {
        RunChunkFailure(io, r.value, chunk[1..]);
        assert forall m :: 1 <= m < |chunk| ==> chunk[m] == chunk[1..][m - 1];
      }
    }
  }

  /** A job before a chunk's first raise whose file can be saved has its
      hash recorded. */
  lemma {:induction false} RunChunkRecordsAt(io: Io, st: Ingest, chunk: seq<Job>, k: nat)
    requires k < |chunk| && forall m :: 0 <= m < k ==> !Fails(io, chunk[m])
    requires Durable(io, chunk[k].path, chunk[k].domain)
    ensures io.hashFile(chunk[k].path).value in RunChunk(io, st, chunk).state.hashes
    decreases k
  {
    if k == 0 {
      DurableRecorded(io, st, chunk[0].path, chunk[0].domain);
      RunChunkGrows(io, ParseAndSave(io, st, chunk[0].path, chunk[0].domain).value, chunk[1..]);
    } else {
      assert !Fails(io, chunk[0]);
      var st' := ParseAndSave(io, st, chunk[0].path, chunk[0].domain).value;
      assert chunk[1..][k - 1] == chunk[k];
      assert forall m :: 0 <= m < k - 1 ==> chunk[1..][m] == chunk[m + 1];
      RunChunkRecordsAt(io, st', chunk[1..], k - 1);
    }
  }

  lemma RunChunkRecords(io: Io, st: Ingest, chunk: seq<Job>)
    ensures forall k :: 0 <= k < |chunk| ==>
              (forall m :: 0 <= m < k ==> !Fails(io, chunk[m])) ==>
              Durable(io, chunk[k].path, chunk[k].domain) ==>
              io.hashFile(chunk[k].path).value in RunChunk(io, st, chunk).state.hashes
  {
    forall k | 0 <= k < |chunk| && (forall m :: 0 <= m < k ==> !Fails(io, chunk[m]))
               && Durable(io, chunk[k].path, chunk[k].domain)
      ensures io.hashFile(chunk[k].path).value in RunChunk(io, st, chunk).state.hashes
    {
      RunChunkRecordsAt(io, st, chunk, k);
    }
  }

  /** A job whose file can be saved does not raise, and its hash is known
      afterwards, whether it was new or not. */
  lemma DurableRecorded(io: Io, st: Ingest, path: string, domain: string)
    requires Durable(io, path, domain)
    ensures ParseAndSave(io, st, path, domain).Ok?
    ensures io.hashFile(path).value in ParseAndSave(io, st, path, domain).value.hashes
  {
    RecordedIff(io, st, path, domain);
  }

  /** A chunk raises exactly when one of its jobs does, and every job before
      the first raise whose file can be saved has its hash recorded. */
  lemma RunChunkCovers(io: Io, st: Ingest, chunk: seq<Job>)
    ensures st.hashes <= RunChunk(io, st, chunk).state.hashes
    ensures RunChunk(io, st, chunk).failure.None? <==> forall m :: 0 <= m < |chunk| ==> !Fails(io, chunk[m])
    ensures forall k :: 0 <= k < |chunk| ==>
              (forall m :: 0 <= m < k ==> !Fails(io, chunk[m])) ==>
              Durable(io, chunk[k].path, chunk[k].domain) ==>
              io.hashFile(chunk[k].path).value in RunChunk(io, st, chunk).state.hashes
  {
    RunChunkGrows(io, st, chunk);
    RunChunkFailure(io, st, chunk);
    RunChunkRecords(io, st, chunk);
  }

  /** A chunk whose savable jobs before its first raise are all known leaves
      the ledger and the hash set unchanged. */
  lemma {:induction false} RunChunkKnown(io: Io, st: Ingest, chunk: seq<Job>)
    requires forall k :: 0 <= k < |chunk| ==>
               (forall m :: 0 <= m < k ==> !Fails(io, chunk[m])) ==>
               Durable(io, chunk[k].path, chunk[k].domain) ==>
               io.hashFile(chunk[k].path).value in st.hashes
    ensures RunChunk(io, st, chunk).state.log == st.log
    ensures RunChunk(io, st, chunk).state.hashes == st.hashes
    decreases |chunk|
  {
    if |chunk| > 0 {
      RecordedIff(io, st, chunk[0].path, chunk[0].domain);
      var r := ParseAndSave(io, st, chunk[0].path, chunk[0].domain);
      if r.Ok? {
        assert !Fails(io, chunk[0]);
        assert forall k :: 0 <= k < |chunk| - 1 ==> chunk[1..][k] == chunk[k + 1];
        RunChunkKnown(io, r.value, chunk[1..]);
      }
    }
  }

  lemma {:induction false} RunChunksKeepsLedger(io: Io, st: Ingest, jobs: seq<Job>, c: nat)
    requires c > 0 && HexHashes(io) && LedgerOk(st)
    ensures LedgerOk(RunChunks(io, st, jobs, c).state)
    ensures st.hashes <= RunChunks(io, st, jobs, c).state.hashes
    decreases |jobs|
  {
    if |jobs| > 0 {
      var n := if |jobs| < c then |jobs| else c;
      RunChunkKeepsLedger(io, st, jobs[..n]);
      RunChunksKeepsLedger(io, RunChunk(io, st, jobs[..n]).state, jobs[n..], c);
    }
  }

  lemma {:induction false} RunChunksGrows(io: Io, st: Ingest, jobs: seq<Job>, c: nat)
    requires c > 0
    ensures st.hashes <= RunChunks(io, st, jobs, c).state.hashes
    decreases |jobs|
  {
    if |jobs| > 0 {
      var n := if |jobs| < c then |jobs| else c;
      RunChunkGrows(io, st, jobs[..n]);
      RunChunksGrows(io, RunChunk(io, st, jobs[..n]).state, jobs[n..], c);
    }
  }

  lemma {:induction false} RunChunksFailure(io: Io, st: Ingest, jobs: seq<Job>, c: nat)
    requires c > 0
    ensures RunChunks(io, st, jobs, c).failure.None? <==> forall m :: 0 <= m < |jobs| ==> !Fails(io, jobs[m])
    decreases |jobs|
  {
    if |jobs| > 0 {
      var n := if |jobs| < c then |jobs| else c;
      RunChunkFailure(io, st, jobs[..n]);
      RunChunksFailure(io, RunChunk(io, st, jobs[..n]).state, jobs[n..], c);
      assert jobs == jobs[..n] + jobs[n..];
    }
  }

  lemma {:induction false} RunChunksRecords(io: Io, st: Ingest, jobs: seq<Job>, c: nat)
    requires c > 0
    ensures forall k :: 0 <= k < |jobs| ==> Reached(io, jobs, c, k) ==>
              Durable(io, jobs[k].path, jobs[k].domain) ==>
              io.hashFile(jobs[k].path).value in RunChunks(io, st, jobs, c).state.hashes
    decreases |jobs|
  {
    if |jobs| > 0 {
      var n := if |jobs| < c then |jobs| else c;
      var first := RunChunk(io, st, jobs[..n]);
      var r := RunChunks(io, first.state, jobs[n..], c);
      RunChunkRecords(io, st, jobs[..n]);
      RunChunksGrows(io, first.state, jobs[n..], c);
      RunChunksRecords(io, first.state, jobs[n..], c);
      forall k | 0 <= k < |jobs| && Reached(io, jobs, c, k) && Durable(io, jobs[k].path, jobs[k].domain)
        ensures io.hashFile(jobs[k].path).value in r.state.hashes
      {
        if k < n {
          ReachedFirst(io, jobs, c, k);
          assert forall m :: 0 <= m < k ==> jobs[..n][m] == jobs[m];
          assert jobs[..n][k] == jobs[k];
        } else {
          ReachedLater(io, jobs, c, k);
          assert jobs[n..][k - n] == jobs[k];
        }
      }
    }
  }

  lemma RunChunksCovers(io: Io, st: Ingest, jobs: seq<Job>, c: nat)
    requires c > 0
    ensures st.hashes <= RunChunks(io, st, jobs, c).state.hashes
    ensures RunChunks(io, st, jobs, c).failure.None? <==> forall m :: 0 <= m < |jobs| ==> !Fails(io, jobs[m])
    ensures forall k :: 0 <= k < |jobs| ==> Reached(io, jobs, c, k) ==>
              Durable(io, jobs[k].path, jobs[k].domain) ==>
              io.hashFile(jobs[k].path).value in RunChunks(io, st, jobs, c).state.hashes
  {
    RunChunksGrows(io, st, jobs, c);
    RunChunksFailure(io, st, jobs, c);
    RunChunksRecords(io, st, jobs, c);
  }

  lemma {:induction false} RunChunksKnown(io: Io, st: Ingest, jobs: seq<Job>, c: nat)
    requires c > 0
    requires forall k :: 0 <= k < |jobs| ==> Reached(io, jobs, c, k) ==>
               Durable(io, jobs[k].path, jobs[k].domain) ==>
               io.hashFile(jobs[k].path).value in st.hashes
    ensures RunChunks(io, st, jobs, c).state.log == st.log
    ensures RunChunks(io, st, jobs, c).state.hashes == st.hashes
    decreases |jobs|
  {
    if |jobs| > 0 {
      var n := if |jobs| < c then |jobs| else c;
      assert forall m :: 0 <= m < n ==> jobs[..n][m] == jobs[m];
      forall k | 0 <= k < n && (forall m :: 0 <= m < k ==> !Fails(io, jobs[..n][m]))
        ensures Reached(io, jobs, c, k)
      {
      }
      RunChunkKnown(io, st, jobs[..n]);
      var first := RunChunk(io, st, jobs[..n]);
      forall k | 0 <= k < |jobs| - n && Reached(io, jobs[n..], c, k)
        ensures Reached(io, jobs, c, k + n)
      {
      }
      assert forall k :: 0 <= k < |jobs| - n ==> jobs[n..][k] == jobs[k + n];
      RunChunksKnown(io, first.state, jobs[n..], c);
    }
  }

  /** A scan keeps the ledger and the hash set in step, even when it raises,
      and known hashes are never lost. */
  lemma ScanAllKeepsLedger(io: Io, st: Ingest, jobs: seq<Job>, cpus: nat)
    requires HexHashes(io) && LedgerOk(st)
    ensures LedgerOk(ScanAll(io, st, jobs, cpus).state)
    ensures st.hashes <= ScanAll(io, st, jobs, cpus).state.hashes
  {
    if |jobs| > 0 {
      RunChunksKeepsLedger(io, st, jobs, ChunkSize(|jobs|, Workers(cpus)));
    }
  }

  /** A scan raises exactly when some job's file exists but cannot be hashed.
      Every job the scan reaches whose file can be saved has its hash
      recorded, whether or not the scan raises; without a raise that is
      every savable job. */
  lemma ScanAllCovers(io: Io, st: Ingest, jobs: seq<Job>, cpus: nat)
    ensures st.hashes <= ScanAll(io, st, jobs, cpus).state.hashes
    ensures ScanAll(io, st, jobs, cpus).failure.None? <==> forall m :: 0 <= m < |jobs| ==> !Fails(io, jobs[m])
    ensures forall k :: 0 <= k < |jobs| ==> ScanReaches(io, jobs, cpus, k) ==>
              Durable(io, jobs[k].path, jobs[k].domain) ==>
              io.hashFile(jobs[k].path).value in ScanAll(io, st, jobs, cpus).state.hashes
    ensures ScanAll(io, st, jobs, cpus).failure.None? ==> forall k :: 0 <= k < |jobs| ==> ScanReaches(io, jobs, cpus, k)
  {
    if |jobs| > 0 {
      var c := ChunkSize(|jobs|, Workers(cpus));
      RunChunksCovers(io, st, jobs, c);
      if ScanAll(io, st, jobs, cpus).failure.None? {
        forall k | 0 <= k < |jobs| ensures ScanReaches(io, jobs, cpus, k) {
          NoFailureReachesAll(io, jobs, c, k);
        }
      }
    }
  }

  /** A scan of at most four jobs per worker puts one job in each chunk, so
      every job runs and a raise skips no other job. */
  lemma SmallScanReachesAll(io: Io, jobs: seq<Job>, cpus: nat, k: nat)
    requires k < |jobs| <= 4 * Workers(cpus)
    ensures ScanReaches(io, jobs, cpus, k)
  {
    var w := Workers(cpus);
    var c := ChunkSize(|jobs|, w);
    if c > 1 {
      MulAtLeast(c - 1, 4 * w);
    }
    UnitChunksReachAll(io, jobs, k);
  }

  /** When every savable job the scan reaches is already known, a scan leaves
      the ledger and the hash set unchanged, whether or not it raises. */
  lemma ScanAllKnown(io: Io, st: Ingest, jobs: seq<Job>, cpus: nat)
    requires forall k :: 0 <= k < |jobs| ==> ScanReaches(io, jobs, cpus, k) ==>
               Durable(io, jobs[k].path, jobs[k].domain) ==>
               io.hashFile(jobs[k].path).value in st.hashes
    ensures ScanAll(io, st, jobs, cpus).state.log == st.log
    ensures ScanAll(io, st, jobs, cpus).state.hashes == st.hashes
  {
    if |jobs| > 0 {
      RunChunksKnown(io, st, jobs, ChunkSize(|jobs|, Workers(cpus)));
    }
  }

  /** Scanning the same, unchanged files again after a scan, even one that
      raised, appends nothing to the ledger and learns no new hash: the same
      jobs are reached, and those are all known. */
  lemma RescanAddsNothing(io: Io, st: Ingest, jobs: seq<Job>, cpus: nat)
    ensures var st1 := ScanAll(io, st, jobs, cpus).state;
      && ScanAll(io, st1, jobs, cpus).state.log == st1.log
      && ScanAll(io, st1, jobs, cpus).state.hashes == st1.hashes
  {
    ScanAllCovers(io, st, jobs, cpus);
    ScanAllKnown(io, ScanAll(io, st, jobs, cpus).state, jobs, cpus);
  }
}
