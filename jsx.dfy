/** The generator of translations.jsx (translate_texts.py): one object per
    language, in the order ar, en, fr, zh; inside it the categories and,
    inside each, the keys, both sorted; every value written as a
    double-quoted literal with backslashes and quotes escaped. */
module Jsx {
  import opened Records

  // ---------------------------------------------------------------------
  // Escaping
  // ---------------------------------------------------------------------

  /** `s.replace(c, rep)` for a one-character pattern: every occurrence of
      `c` is replaced by `rep`, left to right. */
  function ReplaceChar(s: string, c: char, rep: string): string {
    if s == [] then [] else (if s[0] == c then rep else [s[0]]) + ReplaceChar(s[1..], c, rep)
  }

  lemma {:induction false} ReplaceCharAppend(a: string, b: string, c: char, rep: string)
    ensures ReplaceChar(a + b, c, rep) == ReplaceChar(a, c, rep) + ReplaceChar(b, c, rep)
  {
    if a != [] {
      assert (a + b)[1..] == a[1..] + b;
      ReplaceCharAppend(a[1..], b, c, rep);
    } else {
      assert a + b == b;
    }
  }

  /** The value written between the quotes: backslashes doubled first, then
      every quote preceded by a backslash. */
  function Escape(s: string): string {
    ReplaceChar(ReplaceChar(s, '\\', "\\\\"), '"', "\\\"")
  }

  /** The escape of one character. */
  function EscapeChar(c: char): string {
    if c == '\\' then "\\\\" else if c == '"' then "\\\"" else [c]
  }

  function EscapeEach(s: string): string {
    if s == [] then [] else EscapeChar(s[0]) + EscapeEach(s[1..])
  }

  /** The two passes escape each character on its own: because backslashes
      are doubled before quotes are escaped, the backslash added in front of
      a quote is not doubled again. */
  lemma {:induction false} EscapeIsPerChar(s: string)
    ensures Escape(s) == EscapeEach(s)
  {
    if s != [] {
      var first := if s[0] == '\\' then "\\\\" else [s[0]];
      assert ReplaceChar(s, '\\', "\\\\") == first + ReplaceChar(s[1..], '\\', "\\\\");
      ReplaceCharAppend(first, ReplaceChar(s[1..], '\\', "\\\\"), '"', "\\\"");
      EscapeIsPerChar(s[1..]);
      if s[0] == '\\' {
        assert ReplaceChar(first, '"', "\\\"") == "\\\\" by {
          assert first[1..][1..] == [];
        }
      } else {
        assert ReplaceChar(first, '"', "\\\"") == EscapeChar(s[0]) by {
          assert first[1..] == [];
        }
      }
    }
  }

  /** Reading a double-quoted literal whose opening quote has been consumed:
      a backslash takes the next character as it is, an unescaped quote
      ends the literal. The result is the value and what follows the
      closing quote, or None when the literal is not terminated. */
  function ReadLiteral(t: string): Option<(string, string)>
    decreases |t|
  {
    if t == [] then None
    else if t[0] == '"' then Some(([], t[1..]))
    else
      var skip := if t[0] == '\\' then 2 else 1;
      if |t| < skip then None
      else match ReadLiteral(t[skip..])
        case None => None
        case Some(p) => Some(([t[skip - 1]] + p.0, p.1))
  }

  lemma {:induction false} ReadEscaped(s: string, rest: string)
    ensures ReadLiteral(EscapeEach(s) + "\"" + rest) == Some((s, rest))
  {
    var t := EscapeEach(s) + "\"" + rest;
    if s == [] {
      assert t == "\"" + rest;
    } else {
      ReadEscaped(s[1..], rest);
      var e := EscapeChar(s[0]);
      var u := EscapeEach(s[1..]) + "\"" + rest;
      assert t == e + u;
      if s[0] == '\\' || s[0] == '"' {
        assert t[0] == '\\' && t[1] == s[0] && t[2..] == u;
      } else {
        assert t[0] == s[0] && t[1..] == u;
      }
      assert s == [s[0]] + s[1..];
    }
  }

  /** The emitted literal reads back as the stored value, and the reader
      stops exactly at the closing quote. */
  lemma LiteralRoundTrip(s: string, rest: string)
    ensures ReadLiteral(Escape(s) + "\"" + rest) == Some((s, rest))
  {
    EscapeIsPerChar(s);
    ReadEscaped(s, rest);
  }

  // ---------------------------------------------------------------------
  // Sorting
  // ---------------------------------------------------------------------

  /** Python's `<` on strings: code point by code point, a proper prefix
      first. */
  predicate Below(a: string, b: string) {
    if a == [] then b != []
    else if b == [] then false
    else if a[0] != b[0] then a[0] < b[0]
    else Below(a[1..], b[1..])
  }

  lemma {:induction false} BelowIrreflexive(a: string)
    ensures !Below(a, a)
  {
    if a != [] {
      BelowIrreflexive(a[1..]);
    }
  }

  lemma {:induction false} BelowTotal(a: string, b: string)
    ensures a == b || Below(a, b) || Below(b, a)
  {
    if a != [] && b != [] && a[0] == b[0] {
      BelowTotal(a[1..], b[1..]);
      if a[1..] == b[1..] {
        assert a == [a[0]] + a[1..] && b == [b[0]] + b[1..];
      }
    }
  }

  lemma {:induction false} BelowTransitive(a: string, b: string, c: string)
    requires Below(a, b) && Below(b, c)
    ensures Below(a, c)
  {
    if a != [] && a[0] == b[0] && b[0] == c[0] {
      BelowTransitive(a[1..], b[1..], c[1..]);
    }
  }

  /** Keys in strictly increasing order. */
  predicate SortedByKey<V>(d: Dict<V>) {
    forall i, j :: 0 <= i < j < |d| ==> Below(d[i].0, d[j].0)
  }

  /** Places `x` before the first entry whose key is not below its own. */
  function InsertByKey<V>(x: (string, V), d: Dict<V>): Dict<V> {
    if d == [] || !Below(d[0].0, x.0) then [x] + d
    else [d[0]] + InsertByKey(x, d[1..])
  }

  /** `sorted(d.items())`. Keys are distinct, so the order of the pairs is
      the order of their keys. */
  function SortByKey<V>(d: Dict<V>): Dict<V> {
    if d == [] then [] else InsertByKey(d[0], SortByKey(d[1..]))
  }

  lemma {:induction false} InsertByKeyPerm<V>(x: (string, V), d: Dict<V>)
    ensures multiset(InsertByKey(x, d)) == multiset(d) + multiset{x}
  {
    if d != [] && Below(d[0].0, x.0) {
      InsertByKeyPerm(x, d[1..]);
      assert d == [d[0]] + d[1..];
    }
  }

  lemma {:induction false} InsertByKeySorted<V>(x: (string, V), d: Dict<V>)
    requires SortedByKey(d)
    requires forall i :: 0 <= i < |d| ==> d[i].0 != x.0
    ensures SortedByKey(InsertByKey(x, d))
  {
    var r := InsertByKey(x, d);
    if d == [] {
    } else if !Below(d[0].0, x.0) {
      BelowTotal(x.0, d[0].0);
      forall i, j | 0 <= i < j < |r| ensures Below(r[i].0, r[j].0) {
        if i == 0 && j > 1 {
          assert r[j] == d[j - 1];
          BelowTransitive(x.0, d[0].0, d[j - 1].0);
        } else if i > 0 {
          assert r[i] == d[i - 1] && r[j] == d[j - 1];
        }
      }
    } else {
      var tail := InsertByKey(x, d[1..]);
      InsertByKeySorted(x, d[1..]);
      InsertByKeyPerm(x, d[1..]);
      forall j | 0 <= j < |tail| ensures Below(d[0].0, tail[j].0) {
        assert tail[j] in multiset(tail);
        assert tail[j] in multiset(d[1..]) + multiset{x};
        if tail[j] != x {
          var k :| 0 <= k < |d[1..]| && d[1..][k] == tail[j];
          assert d[k + 1] == tail[j];
        }
      }
      forall i, j | 0 <= i < j < |r| ensures Below(r[i].0, r[j].0) {
        if i == 0 {
          assert r[j] == tail[j - 1];
        } else {
          assert r[i] == tail[i - 1] && r[j] == tail[j - 1];
        }
      }
    }
  }

  /** The sort keeps exactly the entries it was given and orders them by
      key. */
  lemma {:induction false} SortByKeyCorrect<V>(d: Dict<V>)
    requires DistinctKeys(d)
    ensures multiset(SortByKey(d)) == multiset(d)
    ensures SortedByKey(SortByKey(d))
  {
    if d != [] {
      var rest := SortByKey(d[1..]);
      assert DistinctKeys(d[1..]) by {
        forall i, j | 0 <= i < j < |d[1..]| ensures d[1..][i].0 != d[1..][j].0 {
          assert d[1..][i] == d[i + 1] && d[1..][j] == d[j + 1];
        }
      }
      SortByKeyCorrect(d[1..]);
      InsertByKeyPerm(d[0], rest);
      assert d == [d[0]] + d[1..];
      forall i | 0 <= i < |rest| ensures rest[i].0 != d[0].0 {
        assert rest[i] in multiset(d[1..]);
        var k :| 0 <= k < |d[1..]| && d[1..][k] == rest[i];
        assert d[k + 1] == rest[i];
      }
      InsertByKeySorted(d[0], rest);
    }
  }

  // ---------------------------------------------------------------------
  // The generated text
  // ---------------------------------------------------------------------

  const Languages: seq<Lang> := [Ar, En, Fr, Zh]

  function LangName(lang: Lang): string {
    match lang
    case Ar => "ar"
    case En => "en"
    case Fr => "fr"
    case Zh => "zh"
  }

  function LangComment(lang: Lang): string {
    match lang
    case Ar => "Arabic"
    case En => "English"
    case Fr => "Fran\U{E7}ais"
    case Zh => "Chinese (Simplified)"
  }

  const Opening: string := "export const translations = {\n"
  const Closing: string := "};\n"

  function LangHeader(lang: Lang): string {
    "  // ============================================\n" + "  // " + LangComment(lang) + "\n" + "  // ============================================\n" + "  " + LangName(lang) + ": {\n"
  }

  function CategoryHeader(name: string): string {
    "    // ============ " + name + " ============\n" + "    " + name + ": {\n"
  }

  /** One entry: `key: "escaped value",`. */
  function Line(lang: Lang, entry: (string, Record)): string {
    "      " + entry.0 + ": \"" + Escape(entry.1.Field(lang)) + "\",\n"
  }

  function Lines(lang: Lang, items: Category): string {
    if items == [] then [] else Lines(lang, items[..|items| - 1]) + Line(lang, items[|items| - 1])
  }

  function CategoryBlock(lang: Lang, cat: (string, Category)): string {
    CategoryHeader(cat.0) + Lines(lang, SortByKey(cat.1)) + "    },\n\n"
  }

  function CategoryBlocks(lang: Lang, cats: RecordSet): string {
    if cats == [] then [] else CategoryBlocks(lang, cats[..|cats| - 1]) + CategoryBlock(lang, cats[|cats| - 1])
  }

  function LangBlock(lang: Lang, data: RecordSet): string {
    LangHeader(lang) + CategoryBlocks(lang, SortByKey(data)) + "  },\n\n"
  }

  function LangBlocks(langs: seq<Lang>, data: RecordSet): string {
    if langs == [] then [] else LangBlocks(langs[..|langs| - 1], data) + LangBlock(langs[|langs| - 1], data)
  }

  /** The whole file. */
  function Render(data: RecordSet): string {
    Opening + LangBlocks(Languages, data) + Closing
  }

  /** Appending the next piece of a block that is built by appending. */
  lemma AppendStep(output: string, acc: string, done: string, piece: string, done': string)
    requires acc == output + done && done' == done + piece
    ensures acc + piece == output + done'
  {
  }

  /** Appending a header, a body and a closing line one after another
      appends the whole block. */
  lemma AppendBlock(output: string, header: string, body: string, closing: string)
    ensures ((output + header) + body) + closing == output + (header + body + closing)
  {
  }

  /** The entry loop: appends the line of every entry, in order. */
  method AppendLines(output: string, lang: Lang, entries: Category) returns (output': string)
    ensures output' == output + Lines(lang, entries)
  {
    output' := output;
    for k := 0 to |entries|
      invariant output' == output + Lines(lang, entries[..k])
    {
      var line := Line(lang, entries[k]);
      assert entries[..k + 1][..k] == entries[..k];
      AppendStep(output, output', Lines(lang, entries[..k]), line, Lines(lang, entries[..k + 1]));
      output' := output' + line;
    }
    assert entries[..|entries|] == entries;
  }

  /** One category: its header, its entries in key order, its closing
      brace. */
  method AppendCategory(output: string, lang: Lang, cat: (string, Category)) returns (output': string)
    ensures output' == output + CategoryBlock(lang, cat)
  {
    var header := CategoryHeader(cat.0);
    var closing := "    },\n\n";
    var entries := SortByKey(cat.1);
    output' := AppendLines(output + header, lang, entries);
    AppendBlock(output, header, Lines(lang, entries), closing);
    output' := output' + closing;
  }

  /** The category loop: every category, in the order given. */
  method AppendCategories(output: string, lang: Lang, cats: RecordSet) returns (output': string)
    ensures output' == output + CategoryBlocks(lang, cats)
  {
    output' := output;
    for ci := 0 to |cats|
      invariant output' == output + CategoryBlocks(lang, cats[..ci])
    {
      var next := AppendCategory(output', lang, cats[ci]);
      assert cats[..ci + 1][..ci] == cats[..ci];
      AppendStep(output, output', CategoryBlocks(lang, cats[..ci]), CategoryBlock(lang, cats[ci]),
                 CategoryBlocks(lang, cats[..ci + 1]));
      output' := next;
    }
    assert cats[..|cats|] == cats;
  }

  /** One language: its header, its categories in name order, its closing
      brace. */
  method AppendLanguage(output: string, lang: Lang, data: RecordSet) returns (output': string)
    ensures output' == output + LangBlock(lang, data)
  {
    var header := LangHeader(lang);
    var closing := "  },\n\n";
    var cats := SortByKey(data);
    output' := AppendCategories(output + header, lang, cats);
    AppendBlock(output, header, CategoryBlocks(lang, cats), closing);
    output' := output' + closing;
  }

  /** `generate_translations_jsx`: the text grows by appending, language by
      language, category by category, entry by entry. */
  method GenerateJsx(data: RecordSet) returns (output: string)
    ensures output == Render(data)
  {
    output := Opening;
    for li := 0 to |Languages|
      invariant output == Opening + LangBlocks(Languages[..li], data)
    {
      var next := AppendLanguage(output, Languages[li], data);
      assert Languages[..li + 1][..li] == Languages[..li];
      AppendStep(Opening, output, LangBlocks(Languages[..li], data), LangBlock(Languages[li], data),
                 LangBlocks(Languages[..li + 1], data));
      output := next;
    }
    assert Languages[..|Languages|] == Languages;
    output := output + Closing;
  }
}
