/** The extractor (extract_texts.py): cleaning and filtering of candidate
    strings, collision-free key generation, categorisation, and the loop
    that builds the initial record set. */
module Extract {
  import opened Text
  import opened Records

  // ---------------------------------------------------------------------
  // Language detection and cleaning
  // ---------------------------------------------------------------------

  predicate IsArabicChar(c: char) {
    '\U{600}' <= c <= '\U{6FF}'
  }

  /** `is_arabic`: some character lies in the Arabic block U+0600..U+06FF. */
  predicate IsArabic(text: string) {
    exists i :: 0 <= i < |text| && IsArabicChar(text[i])
  }

  /** The characters `clean_text` strips from both ends. */
  predicate IsEdgePunct(c: char) {
    c in ".,;:!?()[]{}'\""
  }

  predicate OnlyPlainSpaces(s: string) {
    All(s, BlankIfSpace)
  }

  predicate BlankIfSpace(c: char) {
    IsSpace(c) ==> c == ' '
  }

  /** `clean_text`: whitespace runs collapse to one blank (`' '.join(text.split())`),
      then edge punctuation is stripped. Because the strip comes last, a
      non-empty result neither starts nor ends with edge punctuation; it may
      still start or end with the blank that the punctuation was next to. */
  function CleanText(text: string): string {
    Strip(Join(Words(text), " "), IsEdgePunct)
  }

  /** What cleaning guarantees: no edge punctuation at either end and no
      whitespace other than plain blanks. */
  lemma CleanTextShape(text: string)
    ensures var r := CleanText(text);
      && (r != [] ==> !IsEdgePunct(r[0]) && !IsEdgePunct(r[|r| - 1]))
      && OnlyPlainSpaces(r)
  {
    var joined := Join(Words(text), " ");
    var r := Strip(joined, IsEdgePunct);
    JoinedIsPlain(text);
    var k := |joined| - |TrimLeft(joined, IsEdgePunct)|;
    assert OccursAt(joined, r, k) && (r != [] ==> !IsEdgePunct(r[0]) && !IsEdgePunct(r[|r| - 1])) by {
      StripShape(joined, IsEdgePunct);
    }
    AllSlice(joined, k, k + |r|, BlankIfSpace);
  }

  /** Words joined by one blank hold no whitespace but blanks. */
  lemma JoinedIsPlain(text: string)
    ensures OnlyPlainSpaces(Join(Words(text), " "))
  {
    var ws := Words(text);
    forall i | 0 <= i < |ws| ensures All(ws[i], BlankIfSpace) {}
    JoinAll(ws, " ", BlankIfSpace);
  }

  // ---------------------------------------------------------------------
  // The ignore and keep filters
  // ---------------------------------------------------------------------

  /** The class `[a-zA-Z0-9_\-\.\/]`. */
  predicate IsPathChar(c: char) {
    IsAsciiUpper(c) || IsAsciiLower(c) || IsAsciiDigit(c) || c == '_' || c == '-' || c == '.' || c == '/'
  }

  /** `\d`: the ASCII digits and the two Arabic-script digit series. */
  predicate IsDecimalDigit(c: char) {
    IsAsciiDigit(c) || ('\U{660}' <= c <= '\U{669}') || ('\U{6F0}' <= c <= '\U{6F9}')
  }

  /** `^[a-z]+\.[a-z]+$`. */
  predicate IsDottedLower(t: string) {
    exists i :: 0 < i < |t| - 1 && t[i] == '.' && All(t[..i], IsAsciiLower) && All(t[i + 1..], IsAsciiLower)
  }

  /** Some entry of IGNORE_PATTERNS matches `t` (with `re.match`, anchored at
      the start; `$` also anchors the end, as `t` has no trailing newline). */
  predicate MatchesIgnorePattern(t: string) {
    || (t != [] && All(t, IsPathChar))
    || t == "className" || t == "onClick" || t == "onChange"
    || (t != [] && All(t, IsDecimalDigit))
    || IsDottedLower(t)
    || "t(" <= t
    || "$" <= t
    || "http://" <= t || "https://" <= t
  }

  /** `should_ignore`: the whitespace-stripped text is shorter than three
      characters or matches an ignore pattern. */
  predicate ShouldIgnore(text: string) {
    var t := Strip(text, IsSpace);
    |t| < 3 || MatchesIgnorePattern(t)
  }

  /** Texts shorter than three characters are always ignored. */
  lemma ShortTextsIgnored(text: string)
    requires |text| < 3
    ensures ShouldIgnore(text)
  {
    StripShape(text, IsSpace);
  }

  /** `str.isupper()` on one character: ASCII and Latin-1 capitals. */
  predicate IsUpper(c: char) {
    IsAsciiUpper(c) || ('\U{C0}' <= c <= '\U{DE}' && c != '\U{D7}')
  }

  /** The keep rule at the end of the candidate loop: Arabic text, or longer
      than five characters and capitalised. */
  predicate KeepRule(text: string) {
    IsArabic(text) || (|text| > 5 && IsUpper(text[0]))
  }

  /** A cleaned candidate that survives both filters. */
  predicate Admitted(text: string) {
    !ShouldIgnore(text) && KeepRule(text)
  }

  /** An admitted text is never a bare identifier, path or number: if it is
      not Arabic it holds a character outside `[a-zA-Z0-9_\-\.\/]`, so a
      single capitalised English word such as "Welcome" is never kept. */
  lemma AdmittedEnglishIsProse(text: string)
    requires Admitted(text) && !IsArabic(text)
    ensures |text| > 5 && IsUpper(text[0])
    ensures exists i :: 0 <= i < |text| && !IsPathChar(text[i])
  {
    var t := Strip(text, IsSpace);
    StripShape(text, IsSpace);
    var k := |text| - |TrimLeft(text, IsSpace)|;
    var i :| 0 <= i < |t| && !IsPathChar(t[i]);
    assert text[k + i] == t[i];
  }

  /** An admitted text has at least three characters, so it is never empty. */
  lemma AdmittedIsLongEnough(text: string)
    requires Admitted(text)
    ensures |text| >= 3
  {
    StripShape(text, IsSpace);
    assert |Strip(text, IsSpace)| >= 3;
  }

  /** All the candidates of one file, pattern by pattern (the order of
      `PATTERNS`), each pattern's matches in order. */
  function Flatten(groups: seq<seq<string>>): seq<string> {
    if groups == [] then [] else Flatten(groups[..|groups| - 1]) + groups[|groups| - 1]
  }

  /** What one candidate contributes: its cleaned form, when admitted. */
  function Kept(candidate: string): (k: set<string>)
    ensures |k| <= 1
  {
    var text := CleanText(candidate);
    if Admitted(text) then {text} else {}
  }

  /** The set `extract_texts_from_file` returns for the candidates it sees. */
  function TextsOf(candidates: seq<string>): set<string> {
    Union(candidates, Kept)
  }

  /** The union of `part(x)` over the elements `x` of `xs`, built left to right. */
  function Union(xs: seq<string>, part: string -> set<string>): set<string> {
    if xs == [] then {} else Union(xs[..|xs| - 1], part) + part(xs[|xs| - 1])
  }

  lemma UnionSnoc(xs: seq<string>, x: string, part: string -> set<string>)
    ensures Union(xs + [x], part) == Union(xs, part) + part(x)
  {
    assert (xs + [x])[..|xs|] == xs;
  }

  lemma {:induction false} UnionAppend(xs: seq<string>, ys: seq<string>, part: string -> set<string>)
    ensures Union(xs + ys, part) == Union(xs, part) + Union(ys, part)
    decreases |ys|
  {
    if ys != [] {
      var init := ys[..|ys| - 1];
      var y := ys[|ys| - 1];
      UnionAppend(xs, init, part);
      assert xs + ys == (xs + init) + [y];
      UnionSnoc(xs + init, y, part);
      UnionSnoc(init, y, part);
      assert init + [y] == ys;
    } else {
      assert xs + ys == xs;
    }
  }

  lemma {:induction false} UnionMember(xs: seq<string>, part: string -> set<string>, t: string)
    ensures t in Union(xs, part) <==> exists i :: 0 <= i < |xs| && t in part(xs[i])
  {
    if xs != [] {
      var init := xs[..|xs| - 1];
      UnionMember(init, part, t);
      if exists i :: 0 <= i < |init| && t in part(init[i]) {
        var i :| 0 <= i < |init| && t in part(init[i]);
        assert xs[i] == init[i];
      }
      if exists i :: 0 <= i < |xs| && t in part(xs[i]) {
        var i :| 0 <= i < |xs| && t in part(xs[i]);
        if i < |init| {
          assert init[i] == xs[i];
        }
      }
    }
  }

  /** A text is kept exactly when some candidate cleans to it and it is
      admitted. */
  lemma TextsOfMember(xs: seq<string>, t: string)
    ensures t in TextsOf(xs) <==> exists i :: 0 <= i < |xs| && CleanText(xs[i]) == t && Admitted(t)
  {
    UnionMember(xs, Kept, t);
  }

  /** The candidate loop of `extract_texts_from_file`, over the matches of
      each pattern (the regular-expression search itself is not modelled:
      its matches are the input). */
  method CollectTexts(groups: seq<seq<string>>) returns (texts: set<string>)
    ensures texts == TextsOf(Flatten(groups))
  {
    texts := {};
    var p := 0;
    while p < |groups|
      invariant 0 <= p <= |groups|
      invariant texts == TextsOf(Flatten(groups[..p]))
    {
      texts := CollectMatches(texts, groups[p]);
      UnionAppend(Flatten(groups[..p]), groups[p], Kept);
      FlattenSnoc(groups, p);
      p := p + 1;
    }
    assert groups[..|groups|] == groups;
  }

  /** The inner loop: the matches of one pattern, added to `texts`. */
  method CollectMatches(texts: set<string>, matches: seq<string>) returns (texts': set<string>)
    ensures texts' == texts + TextsOf(matches)
  {
    texts' := texts;
    var k := 0;
    while k < |matches|
      invariant 0 <= k <= |matches|
      invariant texts' == texts + TextsOf(matches[..k])
    {
      var next := ConsiderMatch(texts', matches[k]);
      UnionStep(texts, matches, k, texts', next, Kept);
      texts', k := next, k + 1;
    }
    assert matches[..k] == matches;
  }

  /** One more element taken into the union: the union over the first
      `k + 1` elements. */
  lemma UnionStep(base: set<string>, xs: seq<string>, k: nat, before: set<string>, after: set<string>,
                  part: string -> set<string>)
    requires k < |xs|
    requires before == base + Union(xs[..k], part) && after == before + part(xs[k])
    ensures after == base + Union(xs[..k + 1], part)
  {
    assert xs[..k + 1] == xs[..k] + [xs[k]];
    UnionSnoc(xs[..k], xs[k], part);
  }

  /** The body of the candidate loop for one match: clean it, skip it when
      ignored, add it when it is Arabic or a capitalised text longer than
      five characters. */
  method ConsiderMatch(texts: set<string>, candidate: string) returns (texts': set<string>)
    ensures texts' == texts + Kept(candidate)
  {
    texts' := texts;
    var text := CleanText(candidate);
    if ShouldIgnore(text) {
      return;
    }
    if IsArabic(text) || (|text| > 5 && IsUpper(text[0])) {
      texts' := texts' + {text};
    }
  }

  lemma FlattenSnoc(groups: seq<seq<string>>, p: nat)
    requires p < |groups|
    ensures Flatten(groups[..p + 1]) == Flatten(groups[..p]) + groups[p]
  {
    assert groups[..p + 1][..p] == groups[..p];
  }

  /** Every text the extractor keeps is admitted by the filters. */
  lemma TextsOfAdmitted(candidates: seq<string>, t: string)
    requires t in TextsOf(candidates)
    ensures Admitted(t) && |t| >= 3
    ensures exists i :: 0 <= i < |candidates| && CleanText(candidates[i]) == t
  {
    TextsOfMember(candidates, t);
    AdmittedIsLongEnough(t);
  }

  // ---------------------------------------------------------------------
  // Translation keys
  // ---------------------------------------------------------------------

  /** `\w` in a `str` pattern: ASCII letters, digits and `_`, and the word
      characters of the Arabic block (letters and digits, not the
      diacritics or punctuation). */
  predicate IsWordChar(c: char) {
    || IsAsciiUpper(c) || IsAsciiLower(c) || IsAsciiDigit(c) || c == '_'
    || ('\U{620}' <= c <= '\U{64A}') || ('\U{660}' <= c <= '\U{669}')
    || ('\U{66E}' <= c <= '\U{66F}') || ('\U{671}' <= c <= '\U{6D3}')
    || c == '\U{6D5}' || ('\U{6E5}' <= c <= '\U{6E6}')
    || ('\U{6EE}' <= c <= '\U{6FC}') || c == '\U{6FF}'
  }

  const MaxKeyLength: nat := 50

  lemma {:induction false} WordsFromClass(s: string, p: char -> bool)
    requires All(s, c => p(c) || IsSpace(c))
    ensures forall i :: 0 <= i < |Words(s)| ==> All(Words(s)[i], p)
    decreases |s|
  {
    if s == [] {
    } else if IsSpace(s[0]) {
      WordsFromClass(s[1..], p);
    } else {
      var w := WordPrefix(s);
      assert forall j :: 0 <= j < |w| ==> w[j] == s[j];
      WordsFromClass(s[|w|..], p);
      assert Words(s) == [w] + Words(s[|w|..]);
    }
  }

  /** The key before collision handling: lower-cased, everything but word
      characters and whitespace removed, whitespace runs joined by `_`, cut
      to 50 characters. */
  function BaseKey(text: string): string {
    var joined := Join(Words(Select(Lower(text), IsKeyChar)), "_");
    if |joined| <= MaxKeyLength then joined else joined[..MaxKeyLength]
  }

  /** What `re.sub(r'[^\w\s]', '', ...)` keeps. */
  predicate IsKeyChar(c: char) {
    IsWordChar(c) || IsSpace(c)
  }

  /** A base key is at most 50 characters long and made of word characters
      only: no blank, no punctuation. */
  lemma BaseKeyShape(text: string)
    ensures |BaseKey(text)| <= MaxKeyLength
    ensures All(BaseKey(text), IsWordChar) && NoSpace(BaseKey(text))
  {
    var kept := Select(Lower(text), IsKeyChar);
    var ws := Words(kept);
    WordsFromClass(kept, IsWordChar);
    JoinAll(ws, "_", IsWordChar);
  }

  /** The key tried at step `n` of the collision loop: the base key itself,
      then `base_1`, `base_2`, ... */
  function Candidate(base: string, n: nat): string {
    if n == 0 then base else base + "_" + NatToString(n)
  }

  lemma CandidateInjective(base: string, a: nat, b: nat)
    requires Candidate(base, a) == Candidate(base, b)
    ensures a == b
  {
    if a != 0 && b != 0 {
      var s := Candidate(base, a);
      assert s[|base| + 1..] == NatToString(a);
      assert Candidate(base, b)[|base| + 1..] == NatToString(b);
      NatToStringInjective(a, b);
    }
  }

  /** The keys tried before step `n`. */
  ghost function CandidateSet(base: string, n: nat): set<string> {
    set j | 0 <= j < n :: Candidate(base, j)
  }

  lemma CandidateSetSnoc(base: string, n: nat)
    ensures CandidateSet(base, n + 1) == CandidateSet(base, n) + {Candidate(base, n)}
  {
    var lhs, rhs := CandidateSet(base, n + 1), CandidateSet(base, n) + {Candidate(base, n)};
    forall x | x in lhs ensures x in rhs {
      var j :| 0 <= j < n + 1 && x == Candidate(base, j);
      if j < n { assert x in CandidateSet(base, n); }
    }
    forall x | x in rhs ensures x in lhs {
      if x in CandidateSet(base, n) {
        var j :| 0 <= j < n && x == Candidate(base, j);
        assert 0 <= j < n + 1;
      }
    }
  }

  /** The first `n` candidates are pairwise distinct. */
  lemma {:induction false} CandidateSetSize(base: string, n: nat)
    ensures |CandidateSet(base, n)| == n
  {
    if n > 0 {
      CandidateSetSize(base, n - 1);
      CandidateSetSnoc(base, n - 1);
      if Candidate(base, n - 1) in CandidateSet(base, n - 1) {
        var j :| 0 <= j < n - 1 && Candidate(base, j) == Candidate(base, n - 1);
        CandidateInjective(base, j, n - 1);
      }
    }
  }

  lemma {:induction false} SubsetSize<T>(a: set<T>, b: set<T>)
    requires a <= b
    ensures |a| <= |b|
    decreases a
  {
    if a != {} {
      var x :| x in a;
      SubsetSize(a - {x}, b - {x});
    }
  }

  /** One turn of the collision loop: when the candidate of step `n` is
      taken too, `n + 1` distinct candidates are taken, so `existing` has at
      least `n + 1` elements. */
  lemma CandidateTaken(base: string, n: nat, existing: set<string>)
    requires CandidateSet(base, n) <= existing && Candidate(base, n) in existing
    ensures CandidateSet(base, n + 1) <= existing && n + 1 <= |existing|
  {
    CandidateSetSnoc(base, n);
    CandidateSetSize(base, n + 1);
    SubsetSize(CandidateSet(base, n + 1), existing);
  }

  /** `generate_translation_key`: the first candidate not in `existing`.
      The loop ends because each step finds one more distinct candidate in
      the finite set `existing`. */
  method GenerateKey(text: string, existing: set<string>) returns (key: string)
    ensures key !in existing
    ensures BaseKey(text) !in existing ==> key == BaseKey(text)
    ensures exists n: nat :: key == Candidate(BaseKey(text), n) && CandidateSet(BaseKey(text), n) <= existing
  {
    var original := BaseKey(text);
    key := original;
    var counter := 1;
    while key in existing
      invariant counter >= 1
      invariant key == Candidate(original, counter - 1)
      invariant CandidateSet(original, counter - 1) <= existing
      decreases |existing| - (counter - 1)
    {
      CandidateTaken(original, counter - 1, existing);
      key := original + "_" + NatToString(counter);
      counter := counter + 1;
    }
  }

  // ---------------------------------------------------------------------
  // Categories
  // ---------------------------------------------------------------------

  datatype Category =
    | Home | Repentance | Fatwa | LearnIslam | Contact | Courses | Profile
    | Reconciliation | Auth | Search | Common

  /** The category's name as it appears in the record set. */
  function CategoryName(c: Category): string {
    match c
    case Home => "home"
    case Repentance => "repentance"
    case Fatwa => "fatwa"
    case LearnIslam => "learn_islam"
    case Contact => "contact"
    case Courses => "courses"
    case Profile => "profile"
    case Reconciliation => "reconciliation"
    case Auth => "auth"
    case Search => "search"
    case Common => "common"
  }

  /** `any(word in s for word in words)`. */
  predicate AnyIn(s: string, words: seq<string>) {
    words != [] && (Contains(s, words[0]) || AnyIn(s, words[1..]))
  }

  lemma AnyInPair(s: string, a: string, b: string)
    ensures AnyIn(s, [a, b]) == (Contains(s, a) || Contains(s, b))
  {
    assert [a, b][1..] == [b];
    AnyInSingle(s, b);
  }

  lemma AnyInSingle(s: string, a: string)
    ensures AnyIn(s, [a]) == Contains(s, a)
  {
    assert [a][1..] == [];
  }

  /** `categorize_text`: file-name keywords first, in a fixed order, then
      content keywords, then the default. */
  function Categorize(text: string, fileName: string): Category {
    var f := Lower(fileName);
    if Contains(f, "home") then Home
    else if Contains(f, "repentance") || Contains(f, "tawba") then Repentance
    else if Contains(f, "fatwa") then Fatwa
    else if Contains(f, "learn") || Contains(f, "islam") then LearnIslam
    else if Contains(f, "contact") then Contact
    else if Contains(f, "course") then Courses
    else if Contains(f, "profile") then Profile
    else if Contains(f, "reconciliation") then Reconciliation
    else
      var t := Lower(text);
      if AnyIn(t, ["login", "register", "password", "email"]) then Auth
      else if AnyIn(t, ["search", "filter", "find"]) then Search
      else if AnyIn(t, ["save", "delete", "edit", "cancel"]) then Common
      else Common
  }

  type Rule = (seq<string>, Category)

  /** The file-name lookup table, in the order it is consulted. */
  const FileRules: seq<Rule> := [
    (["home"], Home), (["repentance", "tawba"], Repentance), (["fatwa"], Fatwa),
    (["learn", "islam"], LearnIslam), (["contact"], Contact), (["course"], Courses),
    (["profile"], Profile), (["reconciliation"], Reconciliation)]

  /** The content-keyword table, in the order it is consulted. */
  const ContentRules: seq<Rule> := [
    (["login", "register", "password", "email"], Auth),
    (["search", "filter", "find"], Search),
    (["save", "delete", "edit", "cancel"], Common)]

  /** The category of the first rule one of whose keywords occurs in `s`. */
  function FirstRule(rules: seq<Rule>, s: string): Option<Category> {
    if rules == [] then None
    else if AnyIn(s, rules[0].0) then Some(rules[0].1)
    else FirstRule(rules[1..], s)
  }

  /** Table-driven reference for `categorize_text`: the first matching
      file-name rule wins; only when none matches is the text consulted;
      `common` is the default. */
  lemma CategorizeByRules(text: string, fileName: string)
    ensures FirstRule(FileRules, Lower(fileName)).Some? ==>
      Categorize(text, fileName) == FirstRule(FileRules, Lower(fileName)).value
    ensures FirstRule(FileRules, Lower(fileName)).None? ==>
      Categorize(text, fileName) == FirstRule(ContentRules, Lower(text)).GetOr(Common)
  {
    var f := Lower(fileName);
    var t := Lower(text);
    var r := FileRules;
    assert FirstRule(r, f) == if AnyIn(f, ["home"]) then Some(Home) else FirstRule(r[1..], f);
    assert FirstRule(r[1..], f) == if AnyIn(f, ["repentance", "tawba"]) then Some(Repentance) else FirstRule(r[2..], f);
    assert FirstRule(r[2..], f) == if AnyIn(f, ["fatwa"]) then Some(Fatwa) else FirstRule(r[3..], f);
    assert FirstRule(r[3..], f) == if AnyIn(f, ["learn", "islam"]) then Some(LearnIslam) else FirstRule(r[4..], f);
    assert FirstRule(r[4..], f) == if AnyIn(f, ["contact"]) then Some(Contact) else FirstRule(r[5..], f);
    assert FirstRule(r[5..], f) == if AnyIn(f, ["course"]) then Some(Courses) else FirstRule(r[6..], f);
    assert FirstRule(r[6..], f) == if AnyIn(f, ["profile"]) then Some(Profile) else FirstRule(r[7..], f);
    assert FirstRule(r[7..], f) == if AnyIn(f, ["reconciliation"]) then Some(Reconciliation) else FirstRule(r[8..], f);
    assert r[8..] == [];
    AnyInPair(f, "repentance", "tawba");
    AnyInPair(f, "learn", "islam");
    AnyInSingle(f, "home");
    AnyInSingle(f, "fatwa");
    AnyInSingle(f, "contact");
    AnyInSingle(f, "course");
    AnyInSingle(f, "profile");
    AnyInSingle(f, "reconciliation");
    var c := ContentRules;
    assert FirstRule(c, t) == if AnyIn(t, c[0].0) then Some(Auth) else FirstRule(c[1..], t);
    assert FirstRule(c[1..], t) == if AnyIn(t, c[1].0) then Some(Search) else FirstRule(c[2..], t);
    assert FirstRule(c[2..], t) == if AnyIn(t, c[2].0) then Some(Common) else FirstRule(c[3..], t);
    assert c[3..] == [];
  }

  /** Once the file name matches a page keyword the text is irrelevant. */
  lemma FileNameDecides(text1: string, text2: string, fileName: string)
    requires FirstRule(FileRules, Lower(fileName)).Some?
    ensures Categorize(text1, fileName) == Categorize(text2, fileName) == FirstRule(FileRules, Lower(fileName)).value
  {
    CategorizeByRules(text1, fileName);
    CategorizeByRules(text2, fileName);
  }

  // ---------------------------------------------------------------------
  // Building the record set
  // ---------------------------------------------------------------------

  /** One `.jsx` file under the pages directory: its stem and, pattern by
      pattern, the strings the pattern matched in its content. */
  datatype SourceFile = SourceFile(stem: string, groups: seq<seq<string>>)

  /** The texts `extract_texts_from_file` keeps for one file. */
  function FileTexts(f: SourceFile): set<string> {
    TextsOf(Flatten(f.groups))
  }

  /** The number of texts kept over all files, file by file. */
  ghost function TextCount(files: seq<SourceFile>): nat {
    if files == [] then 0 else TextCount(files[..|files| - 1]) + |FileTexts(files[|files| - 1])|
  }

  /** The record written for `text` found in the file `stem`: the text goes
      to `ar` when it contains Arabic and to `en` otherwise. */
  function NewRecord(text: string, stem: string): Record {
    Record(if IsArabic(text) then text else "", if !IsArabic(text) then text else "", "", "", stem, Some(true))
  }

  function CategoryOf(text: string, stem: string): string {
    CategoryName(Categorize(text, stem))
  }

  /** File `f` yields record `r` in category `c`. */
  ghost predicate Yields(f: SourceFile, c: string, r: Record) {
    exists t :: t in FileTexts(f) && r == NewRecord(t, f.stem) && c == CategoryOf(t, f.stem)
  }

  /** Some file of `files` yields record `r` in category `c`. */
  ghost predicate Produced(files: seq<SourceFile>, c: string, r: Record) {
    exists f :: 0 <= f < |files| && Yields(files[f], c, r)
  }

  /** The text a record was made from: its one filled source field. */
  function SourceText(r: Record): string {
    r.ar + r.en
  }

  /** `key` is one of the candidates `generate_translation_key` tries for
      the text of `r`. */
  ghost predicate KeyFrom(key: string, r: Record) {
    exists n: nat :: key == Candidate(BaseKey(SourceText(r)), n)
  }

  /** Every record sits under a key derived from its own text. */
  ghost predicate KeyedByText(data: RecordSet) {
    forall e :: HasEntry(data, e) ==> KeyFrom(e.0, e.1)
  }

  /** Inserting a record under a fresh key derived from its text keeps
      every key derived from its record's text. */
  lemma KeyedInsert(data: RecordSet, cat: string, key: string, rec: Record)
    requires DistinctKeys(data) && UniqueKeys(data) && key !in AllKeys(data)
    requires KeyedByText(data) && KeyFrom(key, rec)
    ensures KeyedByText(Insert(data, cat, key, rec))
  {
    InsertEntries(data, cat, key, rec);
  }

  /** `data` is what `extract_all_texts` builds from `files`: category names
      and translation keys are unique, the record count is the number of
      kept texts summed over the files, every record comes from a kept text
      and every kept text has its record, filed under the category
      `categorize_text` picks and keyed by a candidate key of its text. */
  ghost predicate ExtractionOf(files: seq<SourceFile>, data: RecordSet) {
    && DistinctKeys(data)
    && UniqueKeys(data)
    && KeyedByText(data)
    && Size(data) == TextCount(files)
    && Sound(files, data)
    && Covers(files, data)
  }

  /** Every record of `data` comes from a kept text of one of `files`. */
  ghost predicate Sound(files: seq<SourceFile>, data: RecordSet) {
    forall c, r :: Holds(data, c, r) ==> Produced(files, c, r)
  }

  /** Every kept text of every one of `files` has its record in `data`. */
  ghost predicate Covers(files: seq<SourceFile>, data: RecordSet) {
    forall f, t :: 0 <= f < |files| && t in FileTexts(files[f]) ==>
      Holds(data, CategoryOf(t, files[f].stem), NewRecord(t, files[f].stem))
  }

  /** Every text of `texts`, found in `file`, has its record in `data`. */
  ghost predicate CoversTexts(file: SourceFile, texts: set<string>, data: RecordSet) {
    forall t :: t in texts ==> Holds(data, CategoryOf(t, file.stem), NewRecord(t, file.stem))
  }

  /** The file loop of `extract_all_texts`. Set iteration order is not
      fixed in Python, so each text is picked by an arbitrary choice. */
  method ExtractAll(files: seq<SourceFile>) returns (data: RecordSet)
    ensures ExtractionOf(files, data)
    ensures Every(data, IsFresh)
  {
    data := [];
    var existing: set<string> := {};
    ghost var done: seq<SourceFile> := [];
    var fi := 0;
    NothingExtracted();
    while fi < |files|
      invariant 0 <= fi <= |files| && done == files[..fi]
      invariant existing == AllKeys(data)
      invariant ExtractionOf(done, data)
    {
      data, existing := ExtractFile(data, existing, done, files[fi]);
      done := done + [files[fi]];
      fi := fi + 1;
    }
    assert done == files;
    ProducedFresh(files, data);
  }

  /** No files give no records. */
  lemma NothingExtracted()
    ensures ExtractionOf([], [])
  {
  }

  /** One turn of the file loop: extract the file's texts and add them,
      unless there are none. */
  method ExtractFile(data: RecordSet, existing: set<string>, ghost before: seq<SourceFile>, file: SourceFile)
    returns (data': RecordSet, existing': set<string>)
    requires ExtractionOf(before, data) && existing == AllKeys(data)
    ensures ExtractionOf(before + [file], data') && existing' == AllKeys(data')
  {
    var texts := CollectTexts(file.groups);
    if texts == {} {
      StartFile(before, file, data);
      ExtendExtraction(before, file, data);
      return data, existing;
    }
    data', existing' := AddFileTexts(data, existing, before, file, texts);
  }

  /** The text loop of `extract_all_texts` for one file. */
  method AddFileTexts(data: RecordSet, existing: set<string>, ghost before: seq<SourceFile>,
                      file: SourceFile, texts: set<string>)
    returns (data': RecordSet, existing': set<string>)
    requires ExtractionOf(before, data) && existing == AllKeys(data)
    requires texts == FileTexts(file)
    ensures ExtractionOf(before + [file], data') && existing' == AllKeys(data')
  {
    data', existing' := data, existing;
    var remaining := texts;
    StartFile(before, file, data);
    assert texts - remaining == {};
    while remaining != {}
      invariant remaining <= texts
      invariant existing' == AllKeys(data')
      invariant PartialExtraction(before, file, texts - remaining, data')
      decreases |remaining|
    {
      data', existing', remaining := AddOneText(data', existing', before, file, texts, remaining);
    }
    assert texts - remaining == texts;
    ExtendExtraction(before, file, data');
  }

  /** One turn of the text loop: pick a text not yet handled, file it under
      its category with a fresh key. */
  method AddOneText(data: RecordSet, existing: set<string>, ghost before: seq<SourceFile>,
                    file: SourceFile, ghost texts: set<string>, remaining: set<string>)
    returns (data': RecordSet, existing': set<string>, remaining': set<string>)
    requires remaining != {} && remaining <= texts && texts == FileTexts(file)
    requires existing == AllKeys(data)
    requires PartialExtraction(before, file, texts - remaining, data)
    ensures remaining' <= remaining && |remaining'| < |remaining| && existing' == AllKeys(data')
    ensures PartialExtraction(before, file, texts - remaining', data')
  {
    var text :| text in remaining;
    var category := CategoryOf(text, file.stem);
    var key := GenerateKey(text, existing);
    ghost var n: nat :| key == Candidate(BaseKey(text), n);
    assert SourceText(NewRecord(text, file.stem)) == text;
    assert KeyFrom(key, NewRecord(text, file.stem));
    data' := Insert(data, category, key, NewRecord(text, file.stem));
    existing' := existing + {key};
    remaining' := remaining - {text};
    assert texts - remaining' == (texts - remaining) + {text};
    AddText(before, file, texts - remaining, texts - remaining', data, data', text, key);
  }

  /** The record set after the texts `done` of `file` have been added to
      the extraction of the files `before`. */
  ghost predicate PartialExtraction(before: seq<SourceFile>, file: SourceFile, done: set<string>, data: RecordSet) {
    && DistinctKeys(data) && UniqueKeys(data) && KeyedByText(data)
    && Size(data) == TextCount(before) + |done|
    && Sound(before + [file], data)
    && Covers(before, data)
    && CoversTexts(file, done, data)
  }

  /** Adding one more text of `file` under a fresh key. */
  lemma AddText(before: seq<SourceFile>, file: SourceFile, done: set<string>, done': set<string>,
                data: RecordSet, data': RecordSet, text: string, key: string)
    requires PartialExtraction(before, file, done, data)
    requires text in FileTexts(file) && text !in done && key !in AllKeys(data)
    requires KeyFrom(key, NewRecord(text, file.stem))
    requires done' == done + {text}
    requires data' == Insert(data, CategoryOf(text, file.stem), key, NewRecord(text, file.stem))
    ensures PartialExtraction(before, file, done', data') && AllKeys(data') == AllKeys(data) + {key}
  {
    var category := CategoryOf(text, file.stem);
    var rec := NewRecord(text, file.stem);
    var d := Insert(data, category, key, rec);
    KeyedInsert(data, category, key, rec);
    assert DistinctKeys(d) && UniqueKeys(d) && AllKeys(d) == AllKeys(data) + {key}
        && Size(d) == TextCount(before) + |done'|
        && Sound(before + [file], d) && Covers(before, d) && CoversTexts(file, done', d) by {
      InsertFresh(data, category, key, rec);
      AddedSound(before, file, data, d, text);
      AddedComplete(before, file, done, data, d, text);
      assert |done + {text}| == |done| + 1;
    }
  }

  /** Every record of `d` still comes from a kept text when `d` adds one
      record of `file` to records that did. */
  lemma AddedSound(before: seq<SourceFile>, file: SourceFile, data: RecordSet, d: RecordSet, text: string)
    requires text in FileTexts(file) && Sound(before + [file], data)
    requires forall c, r :: Holds(d, c, r) ==> Holds(data, c, r) || (c == CategoryOf(text, file.stem) && r == NewRecord(text, file.stem))
    ensures Sound(before + [file], d)
  {
    forall c, r | Holds(d, c, r) ensures Produced(before + [file], c, r) {
      if !Holds(data, c, r) {
        assert Yields((before + [file])[|before|], c, r);
      }
    }
  }

  /** Every text covered before is still covered, and so is `text`. */
  lemma AddedComplete(before: seq<SourceFile>, file: SourceFile, done: set<string>, data: RecordSet, d: RecordSet, text: string)
    requires forall c, r :: Holds(data, c, r) ==> Holds(d, c, r)
    requires Holds(d, CategoryOf(text, file.stem), NewRecord(text, file.stem))
    requires Covers(before, data) && CoversTexts(file, done, data)
    ensures Covers(before, d) && CoversTexts(file, done + {text}, d)
  {
    forall f, t | 0 <= f < |before| && t in FileTexts(before[f])
      ensures Holds(d, CategoryOf(t, before[f].stem), NewRecord(t, before[f].stem))
    {
      assert Holds(data, CategoryOf(t, before[f].stem), NewRecord(t, before[f].stem));
    }
    forall t | t in done + {text} ensures Holds(d, CategoryOf(t, file.stem), NewRecord(t, file.stem)) {
      if t in done {
        assert Holds(data, CategoryOf(t, file.stem), NewRecord(t, file.stem));
      }
    }
  }

  lemma ProducedPrefix(before: seq<SourceFile>, file: SourceFile)
    ensures forall c, r :: Produced(before, c, r) ==> Produced(before + [file], c, r)
  {
    forall c, r | Produced(before, c, r) ensures Produced(before + [file], c, r) {
      var f :| 0 <= f < |before| && Yields(before[f], c, r);
      assert (before + [file])[f] == before[f];
    }
  }

  /** Before any text of `file` is added, the extraction of `before` is a
      partial extraction of `before + [file]`. */
  lemma StartFile(before: seq<SourceFile>, file: SourceFile, data: RecordSet)
    requires ExtractionOf(before, data)
    ensures PartialExtraction(before, file, {}, data)
  {
    ProducedPrefix(before, file);
  }

  /** Once every text of `file` is added, the extraction covers `file` too. */
  lemma ExtendExtraction(before: seq<SourceFile>, file: SourceFile, data: RecordSet)
    requires PartialExtraction(before, file, FileTexts(file), data)
    ensures ExtractionOf(before + [file], data)
  {
    var files := before + [file];
    assert files[..|before|] == before;
    forall f, t | 0 <= f < |files| && t in FileTexts(files[f])
      ensures Holds(data, CategoryOf(t, files[f].stem), NewRecord(t, files[f].stem))
    {
      if f < |before| {
        assert files[f] == before[f];
      }
    }
  }

  /** A record as the extractor writes it: only the source language is
      filled in, French and Chinese are empty and the record is flagged. */
  predicate IsFresh(r: Record) {
    && r.fr == "" && r.zh == "" && r.flag == Some(true)
    && (r.ar != "" <==> r.en == "")
    && (r.ar != "" ==> IsArabic(r.ar))
    && (r.en != "" ==> !IsArabic(r.en))
  }

  /** Every record produced from kept texts is fresh. */
  lemma ProducedFresh(files: seq<SourceFile>, data: RecordSet)
    requires Sound(files, data)
    ensures Every(data, IsFresh)
  {
    forall i, a | 0 <= i < |data| && 0 <= a < |data[i].1|
      ensures IsFresh(data[i].1[a].1)
    {
      var r := data[i].1[a].1;
      assert InCategory(data[i].1, r);
      assert Holds(data, data[i].0, r);
      var f :| 0 <= f < |files| && Yields(files[f], data[i].0, r);
      var t :| t in FileTexts(files[f]) && r == NewRecord(t, files[f].stem) && data[i].0 == CategoryOf(t, files[f].stem);
      TextsOfAdmitted(Flatten(files[f].groups), t);
    }
  }

  // ---------------------------------------------------------------------
  // Statistics
  // ---------------------------------------------------------------------

  /** The three counts `print_statistics` reports. */
  datatype Stats = Stats(total: nat, arabic: nat, english: nat)

  function Statistics(data: RecordSet): (s: Stats)
    ensures s.arabic <= s.total && s.english <= s.total
  {
    Stats(Size(data), CountWhere(data, HasArabic), CountWhere(data, HasEnglish))
  }

  /** `item['ar']` is truthy. */
  predicate HasArabic(r: Record) { r.ar != "" }

  /** `item['en']` is truthy. */
  predicate HasEnglish(r: Record) { r.en != "" }

  /** On a freshly extracted record set every text is counted exactly once,
      as Arabic or as English, and the total is the number of kept texts. */
  lemma StatisticsOfExtraction(files: seq<SourceFile>, data: RecordSet)
    requires ExtractionOf(files, data) && Every(data, IsFresh)
    ensures Statistics(data).arabic + Statistics(data).english == Statistics(data).total
    ensures Statistics(data).total == TextCount(files)
  {
    assert Every(data, (r: Record) => HasArabic(r) != HasEnglish(r)) by {
      forall i, a | 0 <= i < |data| && 0 <= a < |data[i].1|
        ensures (data[i].1[a].1.ar != "") != (data[i].1[a].1.en != "")
      {
        assert IsFresh(data[i].1[a].1);
      }
    }
    CountPartition(data, HasArabic, HasEnglish);
  }
}
