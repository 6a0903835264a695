/** The translator (translate_texts.py): the Qur'anic-verse heuristic, the
    per-record translation step and the batch walk over the record set with
    its per-run cap. The translation service is an oracle: a function from
    (text, source language, target language) to a string, where `""` stands
    for a failed call. */
module Translate {
  import opened Text
  import opened Records

  // ---------------------------------------------------------------------
  // is_quranic_verse
  // ---------------------------------------------------------------------

  /** The eight Arabic short-vowel and gemination marks U+064B..U+0652. */
  predicate IsDiacritic(c: char) {
    '\U{64B}' <= c <= '\U{652}'
  }

  function DiacriticCount(s: string): (n: nat)
    ensures n <= |s|
  {
    if s == [] then 0
    else DiacriticCount(s[..|s| - 1]) + (if IsDiacritic(s[|s| - 1]) then 1 else 0)
  }

  /** More than 30% of the characters are diacritics, in integers:
      `count / length > 0.3` is `10 * count > 3 * length`. */
  predicate HeavilyVowelled(text: string) {
    |text| > 0 && 10 * DiacriticCount(text) > 3 * |text|
  }

  /** The fully vowelled words and phrases the heuristic looks for. */
  const Indicators: seq<string> := [
    "\U{642}\U{64F}\U{644}\U{652}",
    "\U{625}\U{650}\U{646}\U{64E}\U{651}",
    "\U{648}\U{64E}",
    "\U{627}\U{644}\U{64E}\U{651}\U{630}\U{650}\U{64A}\U{646}\U{64E}",
    "\U{64A}\U{64E}\U{627} \U{639}\U{650}\U{628}\U{64E}\U{627}\U{62F}\U{650}\U{64A}\U{64E}",
    "\U{644}\U{64E}\U{627} \U{62A}\U{64E}\U{642}\U{652}\U{646}\U{64E}\U{637}\U{64F}\U{648}\U{627}",
    "\U{631}\U{64E}\U{651}\U{62D}\U{652}\U{645}\U{64E}\U{629}\U{650}",
    "\U{627}\U{644}\U{644}\U{64E}\U{651}\U{647}\U{650}",
    "\U{64A}\U{64F}\U{62D}\U{650}\U{628}\U{64F}\U{651}",
    "\U{627}\U{644}\U{62A}\U{64E}\U{651}\U{648}\U{64E}\U{651}\U{627}\U{628}\U{650}\U{64A}\U{646}\U{64E}",
    "\U{627}\U{644}\U{652}\U{645}\U{64F}\U{62A}\U{64E}\U{637}\U{64E}\U{647}\U{650}\U{651}\U{631}\U{650}\U{64A}\U{646}\U{64E}"
  ]

  /** The search loop over the indicators, first to last. */
  predicate HasIndicator(text: string, indicators: seq<string>) {
    indicators != [] && (Contains(text, indicators[0]) || HasIndicator(text, indicators[1..]))
  }

  /** `is_quranic_verse`. */
  predicate IsQuranicVerse(text: string) {
    HeavilyVowelled(text) || HasIndicator(text, Indicators)
  }

  /** The search loop answers whether some indicator occurs in the text. */
  lemma {:induction false} HasIndicatorIff(text: string, indicators: seq<string>)
    ensures HasIndicator(text, indicators) <==> exists j :: 0 <= j < |indicators| && Contains(text, indicators[j])
  {
    if indicators != [] {
      HasIndicatorIff(text, indicators[1..]);
      if exists j :: 0 <= j < |indicators[1..]| && Contains(text, indicators[1..][j]) {
        var j :| 0 <= j < |indicators[1..]| && Contains(text, indicators[1..][j]);
        assert indicators[j + 1] == indicators[1..][j];
      }
      if exists j :: 0 <= j < |indicators| && Contains(text, indicators[j]) {
        var j :| 0 <= j < |indicators| && Contains(text, indicators[j]);
        if j > 0 {
          assert indicators[1..][j - 1] == indicators[j];
        }
      }
    }
  }

  /** A verse is recognised by its vowelling or by containing one of the
      indicators, and by nothing else. */
  lemma QuranicIff(text: string)
    ensures IsQuranicVerse(text) <==>
      (|text| > 0 && 10 * DiacriticCount(text) > 3 * |text|)
      || exists j :: 0 <= j < |Indicators| && Contains(text, Indicators[j])
  {
    HasIndicatorIff(text, Indicators);
  }

  /** The empty text is not a verse: the ratio test needs a positive length
      and no indicator is empty. */
  lemma EmptyIsNotQuranic()
    ensures !IsQuranicVerse("")
  {
    forall j | 0 <= j < |Indicators| ensures Indicators[j] != [] {
      assert Indicators[j][0] in {'\U{642}', '\U{625}', '\U{648}', '\U{627}', '\U{64A}', '\U{644}', '\U{631}'};
    }
    NoIndicatorInEmpty(Indicators);
  }

  lemma {:induction false} NoIndicatorInEmpty(indicators: seq<string>)
    requires forall j :: 0 <= j < |indicators| ==> indicators[j] != []
    ensures !HasIndicator("", indicators)
  {
    if indicators != [] {
      assert indicators[1..][0..] == indicators[1..];
      NoIndicatorInEmpty(indicators[1..]);
    }
  }

  // ---------------------------------------------------------------------
  // One record
  // ---------------------------------------------------------------------

  /** `translate_text(text, source, target)`; `""` when the call failed. */
  type Oracle = (string, Lang, Lang) -> string

  /** A target field is translated only while it is empty. */
  function Fill(current: string, translation: string): string {
    if current == "" then translation else current
  }

  /** The record goes through the translate path and counts toward the cap:
      it still needs translation, has a source text, and is not an Arabic
      verse. */
  predicate Countable(r: Record) {
    r.NeedsTranslation() && (r.ar != "" || r.en != "") && !(r.ar != "" && IsQuranicVerse(r.ar))
  }

  /** The body of the record loop of `translate_batch`: the new record and
      whether it counts toward the cap. */
  function Process(r: Record, tr: Oracle): (Record, bool) {
    if !r.NeedsTranslation() then (r, false)
    else
      var src := if r.ar != "" then r.ar else r.en;
      if src == "" then (r, false)
      else if r.ar != "" && IsQuranicVerse(src) then (r.(flag := Some(false)), false)
      else if r.ar != "" then
        (r.(en := Fill(r.en, tr(src, Ar, En)), fr := Fill(r.fr, tr(src, Ar, Fr)),
            zh := Fill(r.zh, tr(src, Ar, Zh)), flag := Some(false)), true)
      else
        (r.(ar := Fill(r.ar, tr(src, En, Ar)), fr := Fill(r.fr, tr(src, En, Fr)),
            zh := Fill(r.zh, tr(src, En, Zh)), flag := Some(false)), true)
  }

  /** The source language: Arabic when `ar` is filled, English otherwise. */
  function SourceLang(r: Record): Lang {
    if r.ar != "" then Ar else En
  }

  /** A record counts exactly when it is countable. */
  lemma ProcessCounts(r: Record, tr: Oracle)
    ensures Process(r, tr).1 <==> Countable(r)
  {
  }

  /** A filled field is never overwritten; an empty field changes only to
      the oracle's translation of the source text into that language. The
      source and file name never change. */
  lemma ProcessOnlyFillsEmpty(r: Record, tr: Oracle, lang: Lang)
    ensures r.Field(lang) != "" ==> Process(r, tr).0.Field(lang) == r.Field(lang)
    ensures Process(r, tr).0.Field(lang) != r.Field(lang) ==>
      Countable(r) && lang != SourceLang(r) && Process(r, tr).0.Field(lang) == tr(r.Field(SourceLang(r)), SourceLang(r), lang)
    ensures Process(r, tr).0.sourceFile == r.sourceFile
  {
  }

  /** The flag only goes from "needs translation" to done, and a record that
      is done or has no source text is left exactly as it is. Any other
      record leaves the step done, even when the oracle returned nothing. */
  lemma ProcessFlag(r: Record, tr: Oracle)
    ensures !r.NeedsTranslation() ==> Process(r, tr).0 == r
    ensures r.ar == "" && r.en == "" ==> Process(r, tr).0 == r
    ensures r.NeedsTranslation() && (r.ar != "" || r.en != "") ==> Process(r, tr).0.flag == Some(false)
    ensures !Process(r, tr).0.NeedsTranslation() || Process(r, tr).0 == r
  {
  }

  /** An Arabic verse is marked done with no text changed, and it does not
      count toward the cap. English sources are never bypassed. */
  lemma QuranicBypass(r: Record, tr: Oracle)
    requires r.NeedsTranslation()
    ensures r.ar != "" && IsQuranicVerse(r.ar) ==> Process(r, tr) == (r.(flag := Some(false)), false)
    ensures r.ar == "" && r.en != "" ==> Process(r, tr).1
  {
  }

  /** The record loop body, step by step: skip, bypass, or fill the empty
      target fields one by one and clear the flag. */
  method TranslateRecord(r: Record, tr: Oracle) returns (r': Record, counted: bool)
    ensures (r', counted) == Process(r, tr)
  {
    r', counted := r, false;
    if !r.NeedsTranslation() {
      return;
    }
    var sourceText := if r.ar != "" then r.ar else r.en;
    var sourceLang := if r.ar != "" then Ar else En;
    if sourceText == "" {
      return;
    }
    if sourceLang == Ar && IsQuranicVerse(sourceText) {
      r' := r'.(flag := Some(false));
      return;
    }
    if sourceLang == Ar {
      if r'.en == "" {
        r' := r'.(en := tr(sourceText, Ar, En));
      }
      if r'.fr == "" {
        r' := r'.(fr := tr(sourceText, Ar, Fr));
      }
      if r'.zh == "" {
        r' := r'.(zh := tr(sourceText, Ar, Zh));
      }
    } else {
      if r'.ar == "" {
        r' := r'.(ar := tr(sourceText, En, Ar));
      }
      if r'.fr == "" {
        r' := r'.(fr := tr(sourceText, En, Fr));
      }
      if r'.zh == "" {
        r' := r'.(zh := tr(sourceText, En, Zh));
      }
    }
    r' := r'.(flag := Some(false));
    counted := true;
  }

  // ---------------------------------------------------------------------
  // The batch walk
  // ---------------------------------------------------------------------

  /** The walk's state: records counted so far, and whether the cap has
      been reached (after which nothing more is touched). */
  datatype Walk = Walk(count: nat, stopped: bool)

  /** `max_translations` is truthy: present and non-zero. */
  predicate Capped(cap: Option<int>) {
    cap.Some? && cap.value != 0
  }

  /** One record of the walk: processed unless the walk has stopped; a
      counted record may reach the cap. */
  function Visit(w: Walk, r: Record, tr: Oracle, cap: Option<int>): (Record, Walk) {
    if w.stopped then (r, w)
    else
      var (r', counted) := Process(r, tr);
      if !counted then (r', w)
      else (r', Walk(w.count + 1, Capped(cap) && w.count + 1 >= cap.value))
  }

  /** The walk over one category's records, in order. */
  function RunItems(items: Category, w: Walk, tr: Oracle, cap: Option<int>): (Category, Walk) {
    if items == [] then ([], w)
    else
      var (init, w1) := RunItems(items[..|items| - 1], w, tr, cap);
      var (key, r) := items[|items| - 1];
      var (r', w2) := Visit(w1, r, tr, cap);
      (init + [(key, r')], w2)
  }

  /** The walk over the categories, in order. */
  function RunCats(data: RecordSet, w: Walk, tr: Oracle, cap: Option<int>): (RecordSet, Walk) {
    if data == [] then ([], w)
    else
      var (init, w1) := RunCats(data[..|data| - 1], w, tr, cap);
      var (name, items) := data[|data| - 1];
      var (items', w2) := RunItems(items, w1, tr, cap);
      (init + [(name, items')], w2)
  }

  lemma RunItemsSnoc(items: Category, x: (string, Record), w: Walk, tr: Oracle, cap: Option<int>)
    ensures RunItems(items + [x], w, tr, cap) ==
      (RunItems(items, w, tr, cap).0 + [(x.0, Visit(RunItems(items, w, tr, cap).1, x.1, tr, cap).0)],
       Visit(RunItems(items, w, tr, cap).1, x.1, tr, cap).1)
  {
    assert (items + [x])[..|items|] == items;
  }

  /** Once stopped, the walk changes nothing. */
  lemma {:induction false} RunItemsStopped(items: Category, w: Walk, tr: Oracle, cap: Option<int>)
    requires w.stopped
    ensures RunItems(items, w, tr, cap) == (items, w)
  {
    if items != [] {
      var init, last := items[..|items| - 1], items[|items| - 1];
      RunItemsStopped(init, w, tr, cap);
      RunItemsSnoc(init, last, w, tr, cap);
      assert init + [last] == items;
    }
  }

  lemma {:induction false} RunCatsStopped(data: RecordSet, w: Walk, tr: Oracle, cap: Option<int>)
    requires w.stopped
    ensures RunCats(data, w, tr, cap) == (data, w)
  {
    if data != [] {
      RunCatsStopped(data[..|data| - 1], w, tr, cap);
      RunItemsStopped(data[|data| - 1].1, w, tr, cap);
      assert data[..|data| - 1] + [data[|data| - 1]] == data;
    }
  }

  /** Walking a concatenation walks the first part, then the second from
      the state the first part left. */
  lemma {:induction false} RunItemsAppend(xs: Category, ys: Category, w: Walk, tr: Oracle, cap: Option<int>)
    ensures RunItems(xs + ys, w, tr, cap) ==
      (RunItems(xs, w, tr, cap).0 + RunItems(ys, RunItems(xs, w, tr, cap).1, tr, cap).0,
       RunItems(ys, RunItems(xs, w, tr, cap).1, tr, cap).1)
    decreases |ys|
  {
    if ys == [] {
      assert xs + ys == xs;
      assert RunItems(xs, w, tr, cap).0 + [] == RunItems(xs, w, tr, cap).0;
    } else {
      var init := ys[..|ys| - 1];
      var y := ys[|ys| - 1];
      assert ys == init + [y];
      assert xs + ys == (xs + init) + [y];
      var A := RunItems(xs, w, tr, cap);
      var B := RunItems(init, A.1, tr, cap);
      RunItemsAppend(xs, init, w, tr, cap);
      RunItemsSnoc(xs + init, y, w, tr, cap);
      RunItemsSnoc(init, y, A.1, tr, cap);
      var v := Visit(B.1, y.1, tr, cap);
      assert RunItems(xs + init + [y], w, tr, cap) == ((A.0 + B.0) + [(y.0, v.0)], v.1);
      assert RunItems(init + [y], A.1, tr, cap) == (B.0 + [(y.0, v.0)], v.1);
      assert (A.0 + B.0) + [(y.0, v.0)] == A.0 + (B.0 + [(y.0, v.0)]);
    }
  }

  lemma RunCatsSnoc(data: RecordSet, x: (string, Category), w: Walk, tr: Oracle, cap: Option<int>)
    ensures RunCats(data + [x], w, tr, cap) ==
      (RunCats(data, w, tr, cap).0 + [(x.0, RunItems(x.1, RunCats(data, w, tr, cap).1, tr, cap).0)],
       RunItems(x.1, RunCats(data, w, tr, cap).1, tr, cap).1)
  {
    assert (data + [x])[..|data|] == data;
  }

  lemma {:induction false} RunCatsAppend(xs: RecordSet, ys: RecordSet, w: Walk, tr: Oracle, cap: Option<int>)
    ensures RunCats(xs + ys, w, tr, cap) ==
      (RunCats(xs, w, tr, cap).0 + RunCats(ys, RunCats(xs, w, tr, cap).1, tr, cap).0,
       RunCats(ys, RunCats(xs, w, tr, cap).1, tr, cap).1)
    decreases |ys|
  {
    if ys == [] {
      assert xs + ys == xs;
      assert RunCats(xs, w, tr, cap).0 + [] == RunCats(xs, w, tr, cap).0;
    } else {
      var init := ys[..|ys| - 1];
      var y := ys[|ys| - 1];
      assert ys == init + [y];
      assert xs + ys == (xs + init) + [y];
      var A := RunCats(xs, w, tr, cap);
      var B := RunCats(init, A.1, tr, cap);
      RunCatsAppend(xs, init, w, tr, cap);
      RunCatsSnoc(xs + init, y, w, tr, cap);
      RunCatsSnoc(init, y, A.1, tr, cap);
      var v := RunItems(y.1, B.1, tr, cap);
      assert RunCats(xs + init + [y], w, tr, cap) == ((A.0 + B.0) + [(y.0, v.0)], v.1);
      assert RunCats(init + [y], A.1, tr, cap) == (B.0 + [(y.0, v.0)], v.1);
      assert (A.0 + B.0) + [(y.0, v.0)] == A.0 + (B.0 + [(y.0, v.0)]);
    }
  }

  /** One turn of the record loop: the record through TranslateRecord,
      then the count and the cap check when it counted. */
  method VisitRecord(w: Walk, r: Record, tr: Oracle, cap: Option<int>) returns (r': Record, w': Walk)
    requires !w.stopped
    ensures (r', w') == Visit(w, r, tr, cap)
  {
    var counted;
    r', counted := TranslateRecord(r, tr);
    w' := w;
    if counted {
      w' := Walk(w.count + 1, false);
      if Capped(cap) && w'.count >= cap.value {
        w' := w'.(stopped := true);
      }
    }
  }

  /** The record loop over one category; a counted record that reaches the
      cap ends the walk on the spot. */
  method TranslateCategory(items: Category, tr: Oracle, cap: Option<int>, count0: nat)
    returns (items': Category, w: Walk)
    ensures (items', w) == RunItems(items, Walk(count0, false), tr, cap)
  {
    items', w := items, Walk(count0, false);
    var a := 0;
    while a < |items|
      invariant 0 <= a <= |items|
      invariant ItemsSoFar(items, items', a, Walk(count0, false), w, tr, cap)
      invariant !w.stopped
    {
      var r', w' := VisitRecord(w, items[a].1, tr, cap);
      var next := items'[a := (items[a].0, r')];
      ItemsStep(items, items', next, a, Walk(count0, false), w, r', w', tr, cap);
      items', w := next, w';
      if w.stopped {
        ItemsStopped(items, items', a + 1, Walk(count0, false), w, tr, cap);
        return;
      }
      a := a + 1;
    }
    ItemsStopped(items, items', a, Walk(count0, false), w, tr, cap);
  }

  /** The loop invariant of TranslateCategory: the first `a` records are
      walked, the rest untouched. */
  predicate ItemsSoFar(items: Category, items': Category, a: nat, w0: Walk, w: Walk, tr: Oracle, cap: Option<int>)
  {
    && a <= |items| && |items'| == |items|
    && (items'[..a], w) == RunItems(items[..a], w0, tr, cap)
    && items'[a..] == items[a..]
  }

  lemma ItemsStep(items: Category, items': Category, next: Category, a: nat, w0: Walk, w: Walk,
                  r': Record, w': Walk, tr: Oracle, cap: Option<int>)
    requires a < |items| && ItemsSoFar(items, items', a, w0, w, tr, cap)
    requires (r', w') == Visit(w, items[a].1, tr, cap)
    requires next == items'[a := (items[a].0, r')]
    ensures ItemsSoFar(items, next, a + 1, w0, w', tr, cap)
  {
    RunItemsSnoc(items[..a], items[a], w0, tr, cap);
    assert items[..a + 1] == items[..a] + [items[a]];
    assert next[..a + 1] == items'[..a] + [(items[a].0, r')];
    assert next[a + 1..] == items'[a + 1..];
    assert items'[a + 1..] == items'[a..][1..];
  }

  /** Once the walk has stopped (or reached the end), the category as it
      stands is the whole walk's result. */
  lemma ItemsStopped(items: Category, items': Category, a: nat, w0: Walk, w: Walk, tr: Oracle, cap: Option<int>)
    requires ItemsSoFar(items, items', a, w0, w, tr, cap)
    requires w.stopped || a == |items|
    ensures (items', w) == RunItems(items, w0, tr, cap)
  {
    RunItemsAppend(items[..a], items[a..], w0, tr, cap);
    assert items[..a] + items[a..] == items;
    assert items'[..a] + items'[a..] == items';
    if w.stopped {
      RunItemsStopped(items[a..], w, tr, cap);
    } else {
      assert items[a..] == [];
    }
  }

  /** `translate_batch`: the categories in order, each through
      TranslateCategory, returning as soon as the cap is reached; the
      result is the walk's record set and the number of records counted. */
  method TranslateBatch(data: RecordSet, tr: Oracle, cap: Option<int>)
    returns (data': RecordSet, count: nat)
    ensures data' == RunCats(data, Walk(0, false), tr, cap).0
    ensures count == RunCats(data, Walk(0, false), tr, cap).1.count
  {
    data', count := data, 0;
    var i := 0;
    while i < |data|
      invariant 0 <= i <= |data|
      invariant CatsSoFar(data, data', i, Walk(count, false), tr, cap)
    {
      var items', w := TranslateCategory(data[i].1, tr, cap, count);
      var next := data'[i := (data[i].0, items')];
      CatsStep(data, data', next, i, Walk(count, false), items', w, tr, cap);
      data', count := next, w.count;
      if w.stopped {
        CatsStopped(data, data', i + 1, w, tr, cap);
        return;
      }
      i := i + 1;
    }
    CatsStopped(data, data', i, Walk(count, false), tr, cap);
  }

  /** The loop invariant of TranslateBatch: the first `i` categories are
      walked, the rest untouched. */
  predicate CatsSoFar(data: RecordSet, data': RecordSet, i: nat, w: Walk, tr: Oracle, cap: Option<int>)
  {
    && i <= |data| && |data'| == |data|
    && (data'[..i], w) == RunCats(data[..i], Walk(0, false), tr, cap)
    && data'[i..] == data[i..]
  }

  lemma CatsStep(data: RecordSet, data': RecordSet, next: RecordSet, i: nat, w: Walk,
                 items': Category, w': Walk, tr: Oracle, cap: Option<int>)
    requires i < |data| && CatsSoFar(data, data', i, w, tr, cap)
    requires (items', w') == RunItems(data[i].1, w, tr, cap)
    requires next == data'[i := (data[i].0, items')]
    ensures CatsSoFar(data, next, i + 1, w', tr, cap)
  {
    RunCatsSnoc(data[..i], data[i], Walk(0, false), tr, cap);
    assert data[..i + 1] == data[..i] + [data[i]];
    assert next[..i + 1] == data'[..i] + [(data[i].0, items')];
    assert next[i + 1..] == data'[i + 1..];
    assert data'[i + 1..] == data'[i..][1..];
  }

  lemma CatsStopped(data: RecordSet, data': RecordSet, i: nat, w: Walk, tr: Oracle, cap: Option<int>)
    requires CatsSoFar(data, data', i, w, tr, cap)
    requires w.stopped || i == |data|
    ensures (data', w) == RunCats(data, Walk(0, false), tr, cap)
  {
    RunCatsAppend(data[..i], data[i..], Walk(0, false), tr, cap);
    assert data[..i] + data[i..] == data;
    assert data'[..i] + data'[i..] == data';
    if w.stopped {
      RunCatsStopped(data[i..], w, tr, cap);
    } else {
      assert data[i..] == [];
    }
  }

  // ---------------------------------------------------------------------
  // What the walk guarantees
  // ---------------------------------------------------------------------

  /** Same keys in the same order, and every record either untouched or
      replaced by its processed form. */
  predicate ItemsEvolve(items: Category, items': Category, tr: Oracle) {
    && |items'| == |items|
    && forall a :: 0 <= a < |items| ==>
         items'[a].0 == items[a].0
         && (items'[a].1 == items[a].1 || items'[a].1 == Process(items[a].1, tr).0)
  }

  predicate Evolves(data: RecordSet, data': RecordSet, tr: Oracle) {
    && |data'| == |data|
    && forall i :: 0 <= i < |data| ==> data'[i].0 == data[i].0 && ItemsEvolve(data[i].1, data'[i].1, tr)
  }

  /** Same keys in the same order, and every record processed. */
  predicate ItemsProcessed(items: Category, items': Category, tr: Oracle) {
    && |items'| == |items|
    && forall a :: 0 <= a < |items| ==> items'[a] == (items[a].0, Process(items[a].1, tr).0)
  }

  predicate AllProcessed(data: RecordSet, data': RecordSet, tr: Oracle) {
    && |data'| == |data|
    && forall i :: 0 <= i < |data| ==> data'[i].0 == data[i].0 && ItemsProcessed(data[i].1, data'[i].1, tr)
  }

  lemma {:induction false} RunItemsEvolve(items: Category, w: Walk, tr: Oracle, cap: Option<int>)
    ensures ItemsEvolve(items, RunItems(items, w, tr, cap).0, tr)
  {
    if items != [] {
      var init := items[..|items| - 1];
      RunItemsEvolve(init, w, tr, cap);
      var out := RunItems(items, w, tr, cap).0;
      assert out[..|init|] == RunItems(init, w, tr, cap).0;
      forall a | 0 <= a < |items|
        ensures out[a].0 == items[a].0
        ensures out[a].1 == items[a].1 || out[a].1 == Process(items[a].1, tr).0
      {
        if a < |init| {
          assert out[a] == out[..|init|][a];
          assert items[a] == init[a];
        }
      }
    }
  }

  lemma {:induction false} RunCatsEvolve(data: RecordSet, w: Walk, tr: Oracle, cap: Option<int>)
    ensures Evolves(data, RunCats(data, w, tr, cap).0, tr)
  {
    if data != [] {
      var init := data[..|data| - 1];
      RunCatsEvolve(init, w, tr, cap);
      RunItemsEvolve(data[|data| - 1].1, RunCats(init, w, tr, cap).1, tr, cap);
      var out := RunCats(data, w, tr, cap).0;
      assert out[..|init|] == RunCats(init, w, tr, cap).0;
      forall i | 0 <= i < |data|
        ensures out[i].0 == data[i].0 && ItemsEvolve(data[i].1, out[i].1, tr)
      {
        if i < |init| {
          assert out[i] == out[..|init|][i];
          assert data[i] == init[i];
        }
      }
    }
  }

  /** Over the whole batch: keys and categories keep their order, a filled
      text field is never overwritten, and a record that is done before the
      run, or still needs translation after it, is exactly as it was. */
  lemma BatchNeverOverwrites(data: RecordSet, tr: Oracle, cap: Option<int>, i: nat, a: nat, lang: Lang)
    requires i < |data| && a < |data[i].1|
    ensures var out := RunCats(data, Walk(0, false), tr, cap).0;
      && |out| == |data| && out[i].0 == data[i].0 && |out[i].1| == |data[i].1|
      && out[i].1[a].0 == data[i].1[a].0
      && (data[i].1[a].1.Field(lang) != "" ==> out[i].1[a].1.Field(lang) == data[i].1[a].1.Field(lang))
      && (!data[i].1[a].1.NeedsTranslation() ==> out[i].1[a].1 == data[i].1[a].1)
      && (out[i].1[a].1.NeedsTranslation() ==> out[i].1[a].1 == data[i].1[a].1)
  {
    RunCatsEvolve(data, Walk(0, false), tr, cap);
    ProcessOnlyFillsEmpty(data[i].1[a].1, tr, lang);
    ProcessFlag(data[i].1[a].1, tr);
  }

  /** The cap's effective value: a negative cap behaves like 1, because the
      comparison `count >= cap` already holds after the first record. */
  function Bound(cap: Option<int>): nat
    requires Capped(cap)
  {
    if cap.value >= 1 then cap.value else 1
  }

  /** The walk stops exactly when the count reaches the bound, never beyond
      it, and never stops without a cap. */
  predicate CapKept(w: Walk, cap: Option<int>) {
    if Capped(cap) then w.count <= Bound(cap) && (w.stopped <==> w.count == Bound(cap))
    else !w.stopped
  }

  lemma {:induction false} RunItemsCap(items: Category, w: Walk, tr: Oracle, cap: Option<int>)
    requires CapKept(w, cap)
    ensures CapKept(RunItems(items, w, tr, cap).1, cap)
  {
    if items != [] {
      RunItemsCap(items[..|items| - 1], w, tr, cap);
    }
  }

  lemma {:induction false} RunCatsCap(data: RecordSet, w: Walk, tr: Oracle, cap: Option<int>)
    requires CapKept(w, cap)
    ensures CapKept(RunCats(data, w, tr, cap).1, cap)
  {
    if data != [] {
      RunCatsCap(data[..|data| - 1], w, tr, cap);
      RunItemsCap(data[|data| - 1].1, RunCats(data[..|data| - 1], w, tr, cap).1, tr, cap);
    }
  }

  /** A processed record never needs the translate path again. */
  lemma ProcessSettles(r: Record, tr: Oracle)
    ensures !Countable(Process(r, tr).0)
  {
  }

  /** The records still countable after the walk and the records the walk
      counted add up to the records countable before it; a walk that ends
      unstopped leaves none countable, so it counted all of them. */
  lemma {:induction false} RunItemsConserve(items: Category, w: Walk, tr: Oracle, cap: Option<int>)
    ensures var run := RunItems(items, w, tr, cap);
      && w.count <= run.1.count
      && CountIn(run.0, Countable) + (run.1.count - w.count) == CountIn(items, Countable)
      && (!run.1.stopped ==> !w.stopped && CountIn(run.0, Countable) == 0)
  {
    if items != [] {
      var init, last := items[..|items| - 1], items[|items| - 1];
      RunItemsConserve(init, w, tr, cap);
      var A := RunItems(init, w, tr, cap);
      var v := Visit(A.1, last.1, tr, cap);
      ProcessCounts(last.1, tr);
      ProcessSettles(last.1, tr);
      var out := A.0 + [(last.0, v.0)];
      assert RunItems(items, w, tr, cap) == (out, v.1);
      assert out[..|A.0|] == A.0;
    }
  }

  lemma {:induction false} RunCatsConserve(data: RecordSet, w: Walk, tr: Oracle, cap: Option<int>)
    ensures var run := RunCats(data, w, tr, cap);
      && w.count <= run.1.count
      && CountWhere(run.0, Countable) + (run.1.count - w.count) == CountWhere(data, Countable)
      && (!run.1.stopped ==> !w.stopped && CountWhere(run.0, Countable) == 0)
  {
    if data != [] {
      var init, last := data[..|data| - 1], data[|data| - 1];
      RunCatsConserve(init, w, tr, cap);
      var A := RunCats(init, w, tr, cap);
      var v := RunItems(last.1, A.1, tr, cap);
      RunItemsConserve(last.1, A.1, tr, cap);
      var out := A.0 + [(last.0, v.0)];
      assert RunCats(data, w, tr, cap) == (out, v.1);
      assert out[..|A.0|] == A.0;
    }
  }

  /** With a cap of N, a run translates exactly min(max(N, 1), C) records,
      where C is the number of records needing the translate path; it
      returns early exactly when it reaches max(N, 1), and the records it
      did not reach are the C - count records left for later runs. */
  lemma BatchRespectsCap(data: RecordSet, tr: Oracle, cap: Option<int>)
    requires Capped(cap)
    ensures var run := RunCats(data, Walk(0, false), tr, cap);
      var c := CountWhere(data, Countable);
      && run.1.count == (if Bound(cap) <= c then Bound(cap) else c)
      && (run.1.stopped <==> run.1.count == Bound(cap))
      && CountWhere(run.0, Countable) == c - run.1.count
  {
    RunCatsCap(data, Walk(0, false), tr, cap);
    RunCatsConserve(data, Walk(0, false), tr, cap);
  }

  lemma {:induction false} RunItemsUncapped(items: Category, c: nat, tr: Oracle, cap: Option<int>)
    requires !Capped(cap)
    ensures RunItems(items, Walk(c, false), tr, cap).1 == Walk(c + CountIn(items, Countable), false)
    ensures ItemsProcessed(items, RunItems(items, Walk(c, false), tr, cap).0, tr)
  {
    if items != [] {
      var init := items[..|items| - 1];
      RunItemsUncapped(init, c, tr, cap);
      ProcessCounts(items[|items| - 1].1, tr);
      var out := RunItems(items, Walk(c, false), tr, cap).0;
      assert out[..|init|] == RunItems(init, Walk(c, false), tr, cap).0;
      forall a | 0 <= a < |items|
        ensures out[a] == (items[a].0, Process(items[a].1, tr).0)
      {
        if a < |init| {
          assert out[a] == out[..|init|][a];
          assert items[a] == init[a];
        }
      }
    }
  }

  lemma {:induction false} RunCatsUncapped(data: RecordSet, c: nat, tr: Oracle, cap: Option<int>)
    requires !Capped(cap)
    ensures RunCats(data, Walk(c, false), tr, cap).1 == Walk(c + CountWhere(data, Countable), false)
    ensures AllProcessed(data, RunCats(data, Walk(c, false), tr, cap).0, tr)
  {
    if data != [] {
      var init := data[..|data| - 1];
      RunCatsUncapped(init, c, tr, cap);
      RunItemsUncapped(data[|data| - 1].1, c + CountWhere(init, Countable), tr, cap);
      var out := RunCats(data, Walk(c, false), tr, cap).0;
      assert out[..|init|] == RunCats(init, Walk(c, false), tr, cap).0;
      forall i | 0 <= i < |data|
        ensures out[i].0 == data[i].0 && ItemsProcessed(data[i].1, out[i].1, tr)
      {
        if i < |init| {
          assert out[i] == out[..|init|][i];
          assert data[i] == init[i];
        }
      }
    }
  }

  /** A record is settled when it is done or has no source text. */
  predicate Settled(r: Record) {
    !r.NeedsTranslation() || (r.ar == "" && r.en == "")
  }

  /** Without a cap, the run counts every countable record and leaves every
      record settled. */
  lemma BatchUncapped(data: RecordSet, tr: Oracle, cap: Option<int>)
    requires !Capped(cap)
    ensures RunCats(data, Walk(0, false), tr, cap).1.count == CountWhere(data, Countable)
    ensures Every(RunCats(data, Walk(0, false), tr, cap).0, Settled)
  {
    RunCatsUncapped(data, 0, tr, cap);
    var out := RunCats(data, Walk(0, false), tr, cap).0;
    forall i, a | 0 <= i < |out| && 0 <= a < |out[i].1| ensures Settled(out[i].1[a].1) {
      ProcessFlag(data[i].1[a].1, tr);
    }
  }
}
