/** A Bilinguo session: a two-way glossary between two configured languages,
    built from the rows of an uploaded two-column table. It answers searches
    (the A side ignoring case, the B side with case kept), parses the labels of
    its clickable term list, filters that list, and decides which result box
    receives the query and which the translation. */
module Glossary {
  import opened Wrappers
  import opened Strings
  import opened Dict

  /** The language codes a glossary may be configured with, and their names. */
  const SupportedLangs: map<string, string> := map[
    "en" := "English",
    "zh-TW" := "繁體中文",
    "zh-CN" := "简体中文",
    "ja" := "日本語",
    "ko" := "한국어",
    "de" := "Deutsch",
    "fr" := "Français",
    "es" := "Español",
    "th" := "ไทย",
    "vi" := "Tiếng Việt"
  ]

  /** What stands between the two terms of a display label. */
  const Separator: string := "  ↔  "

  const EmptyQueryMessage: string := "請輸入術語 Please enter a term"
  const NotFoundMessage: string := "查無此詞 Not found"

  /** One row of the uploaded table: the language-A cell and the language-B cell. */
  type Row = (string, string)

  // ---------------------------------------------------------------------------
  // Language configuration

  /** Why a language pair is refused. */
  datatype LangError = SameLanguage | Unsupported(code: string) {
    function Message(): string {
      match this
      case SameLanguage => "Must be two different languages! 必須是兩種不同語言！"
      case Unsupported(code) => "Language '" + code + "' not supported. 不支援此語言。"
    }
  }

  /** The verdict of the checks of `set_languages`: equal codes are refused
      first, then an unsupported A code, then an unsupported B code. */
  function CheckLanguages(a: string, b: string): (r: Option<LangError>)
    ensures r.None? <==> a != b && a in SupportedLangs && b in SupportedLangs
    ensures r == Some(SameLanguage) <==> a == b
    ensures r == Some(Unsupported(a)) <==> a != b && a !in SupportedLangs
    ensures r == Some(Unsupported(b)) <==> a != b && a in SupportedLangs && b !in SupportedLangs
  {
    if a == b then Some(SameLanguage)
    else if a !in SupportedLangs then Some(Unsupported(a))
    else if b !in SupportedLangs then Some(Unsupported(b))
    else None
  }

  // ---------------------------------------------------------------------------
  // What loading a table builds

  /** The forward entry of one row: its lower-cased trimmed A term and its
      trimmed B term. */
  function ForwardPair(row: Row): (string, string) {
    (Lower(Strip(row.0)), Strip(row.1))
  }

  /** The backward entry of one row: its trimmed B term and its trimmed A term. */
  function BackwardPair(row: Row): (string, string) {
    (Strip(row.1), Strip(row.0))
  }

  /** The label of one row. */
  function RowLabel(row: Row): string {
    Label(Strip(row.0), Strip(row.1))
  }

  /** The pairs `(lower(strip(a)), strip(b))` the forward map is built from. */
  function ForwardPairs(rows: seq<Row>): seq<(string, string)> {
    seq(|rows|, i requires 0 <= i < |rows| => ForwardPair(rows[i]))
  }

  /** The pairs `(strip(b), strip(a))` the backward map is built from. */
  function BackwardPairs(rows: seq<Row>): seq<(string, string)> {
    seq(|rows|, i requires 0 <= i < |rows| => BackwardPair(rows[i]))
  }

  /** The forward map: lower-cased A term to B term, the last row winning. */
  function ForwardIndex(rows: seq<Row>): map<string, string> {
    LastWins(ForwardPairs(rows))
  }

  /** The backward map: B term, case kept, to A term, the last row winning. */
  function BackwardIndex(rows: seq<Row>): map<string, string> {
    LastWins(BackwardPairs(rows))
  }

  /** The display label of a pair of terms. */
  function Label(a: string, b: string): string {
    a + Separator + b
  }

  /** One display label per row, in row order. */
  function Labels(rows: seq<Row>): seq<string> {
    seq(|rows|, i requires 0 <= i < |rows| => RowLabel(rows[i]))
  }

  /** The status line reporting how many terms were loaded. */
  function StatusMessage(count: nat): string {
    StatusPrefix + NatToString(count) + StatusSuffix
  }

  const StatusPrefix: string := "✓ 已載入 Loaded "
  const StatusSuffix: string := " 術語 terms"

  // ---------------------------------------------------------------------------
  // Results of a search

  /** A request for synthesized speech: the text, and the language to speak it in. */
  datatype Speech = Speak(text: string, lang: string)

  /** The three outcomes a search tells apart. */
  datatype Lookup = EmptyQuery | NotFound | Found(translation: string, speechLang: string) {

    /** The text the search returns. */
    function Message(): string {
      match this
      case EmptyQuery => EmptyQueryMessage
      case NotFound => NotFoundMessage
      case Found(t, _) => t
    }

    /** The speech request the search makes: only a hit is spoken. */
    function Request(): Option<Speech> {
      match this
      case Found(t, lang) => Some(Speak(t, lang))
      case _ => None
    }
  }

  /** The labels whose lower-cased text contains `needle`, in their order. */
  function KeepMatching(needle: string, labels: seq<string>): seq<string>
    decreases |labels|
  {
    if labels == [] then []
    else (if Contains(Lower(labels[0]), needle) then [labels[0]] else []) + KeepMatching(needle, labels[1..])
  }

  /** `xs` is `ys` with some elements left out and the rest kept in order. */
  predicate IsSubsequence(xs: seq<string>, ys: seq<string>)
    decreases |ys|
  {
    xs == [] || (ys != [] && (IsSubsequence(xs, ys[1..]) || (xs[0] == ys[0] && IsSubsequence(xs[1..], ys[1..]))))
  }

  // ---------------------------------------------------------------------------
  // The session object

  class Bilinguo {
    var title: string
    var developer: string
    var langA: string
    var langB: string
    var langAName: string
    var langBName: string
    /** Lower-cased A term to B term. */
    var glossaryA: map<string, string>
    /** B term to A term. */
    var glossaryB: map<string, string>
    /** The display labels, one per loaded row. */
    var termList: seq<string>
    /** The rows of the table last loaded. */
    ghost var rows: seq<Row>

    /** A valid configured language pair, and indexes that are those of `rows`. */
    ghost predicate Valid()
      reads this
    {
      LanguagesValid() && Indexed()
    }

    /** Two different supported languages, with their names. */
    ghost predicate LanguagesValid()
      reads this`langA, this`langB, this`langAName, this`langBName
    {
      && langA != langB
      && langA in SupportedLangs && langAName == SupportedLangs[langA]
      && langB in SupportedLangs && langBName == SupportedLangs[langB]
    }

    /** The maps and the term list are those built from `rows`. */
    ghost predicate Indexed()
      reads this`glossaryA, this`glossaryB, this`termList, this`rows
    {
      && glossaryA == ForwardIndex(rows)
      && glossaryB == BackwardIndex(rows)
      && termList == Labels(rows)
    }

    /** A session for English and Traditional Chinese with nothing loaded. */
    constructor ()
      ensures Valid() && rows == []
      ensures title == "Bilinguo" && developer == "Anonymous"
      ensures langA == "en" && langB == "zh-TW"
      ensures glossaryA == map[] && glossaryB == map[] && termList == []
    {
      title := "Bilinguo";
      developer := "Anonymous";
      langA := "en";
      langB := "zh-TW";
      langAName := "English";
      langBName := "繁體中文";
      glossaryA := map[];
      glossaryB := map[];
      termList := [];
      rows := [];
    }

    /** `set_languages`: store the pair if it passes the checks, else report
        the first check it fails and change nothing. */
    method SetLanguages(a: string, b: string) returns (err: Option<LangError>)
      requires Valid()
      modifies this`langA, this`langB, this`langAName, this`langBName
      ensures Valid()
      ensures err == CheckLanguages(a, b)
      ensures err.None? ==> langA == a && langB == b
      ensures err.None? ==> langAName == SupportedLangs[a] && langBName == SupportedLangs[b]
      ensures err.Some? ==> langA == old(langA) && langB == old(langB)
      ensures err.Some? ==> langAName == old(langAName) && langBName == old(langBName)
    {
      if a == b {
        return Some(SameLanguage);
      }
      if a !in SupportedLangs {
        return Some(Unsupported(a));
      }
      if b !in SupportedLangs {
        return Some(Unsupported(b));
      }
      langA := a;
      langB := b;
      langAName := SupportedLangs[a];
      langBName := SupportedLangs[b];
      err := None;
    }

    /** `_load_csv` on an already parsed table: rebuild both maps and the term
        list from the rows, and report the number of forward keys. */
    method LoadCsv(table: seq<Row>) returns (status: string, choices: seq<string>)
      requires LanguagesValid()
      modifies this`glossaryA, this`glossaryB, this`termList, this`rows
      ensures Valid() && rows == table
      ensures glossaryA == ForwardIndex(table) && glossaryB == BackwardIndex(table)
      ensures termList == Labels(table)
      ensures status == StatusMessage(|glossaryA|) && choices == termList
    {
      var forward: map<string, string> := map[];
      var backward: map<string, string> := map[];
      var labels: seq<string> := [];
      for i := 0 to |table|
        invariant forward == ForwardIndex(table[..i])
        invariant backward == BackwardIndex(table[..i])
        invariant labels == Labels(table[..i])
      {
        var a, b := Strip(table[i].0), Strip(table[i].1);
        IndexesStep(table, i);
        forward := forward[Lower(a) := b];
        backward := backward[b := a];
        labels := labels + [Label(a, b)];
      }
      assert table[..|table|] == table;
      glossaryA, glossaryB, termList, rows := forward, backward, labels, table;
      status := StatusMessage(|glossaryA|);
      choices := termList;
    }

    /** `_search`: the translation of a query, tried first as an A term with the
        case ignored, then as a B term with the case kept, and the language
        the translation is spoken in. */
    function Search(query: Option<string>): (r: Lookup)
      reads this
      ensures r == EmptyQuery <==> query.None? || query.value == ""
      ensures r.Found? ==> r.translation != ""
      ensures r.Found? ==> r.speechLang == langA || r.speechLang == langB
      ensures query.Some? && query.value != "" ==>
        var t := Strip(query.value);
        var forwardHit := Lower(t) in glossaryA && glossaryA[Lower(t)] != "";
        var backwardHit := t in glossaryB && glossaryB[t] != "";
        && (forwardHit ==> r == Found(glossaryA[Lower(t)], langB))
        && (!forwardHit && backwardHit ==> r.Found? && r.translation == glossaryB[t])
        && (Lower(t) !in glossaryA && backwardHit ==> r == Found(glossaryB[t], langA))
        && (r == NotFound <==> !forwardHit && !backwardHit)
    {
      if query.None? || query.value == "" then EmptyQuery
      else
        var t := Strip(query.value);
        var result :=
          if Lower(t) in glossaryA && glossaryA[Lower(t)] != "" then glossaryA[Lower(t)]
          else if t in glossaryB then glossaryB[t]
          else "";
        if result == "" then NotFound
        else Found(result, if Lower(t) in glossaryA then langB else langA)
    }

    /** `_click_term`: the two trimmed terms of a clicked label and the request
        to speak the B term in language B; a missing label, or one that does
        not split into exactly two parts, gives two empty terms and no speech. */
    function ClickTerm(selected: Option<string>): (r: (string, string, Option<Speech>))
      reads this
      ensures r.2.None? <==> selected.None? || selected.value == "" || |Split(selected.value, Separator)| != 2
      ensures r.2.None? ==> r.0 == "" && r.1 == ""
      ensures r.2.Some? ==> r.2.value == Speak(r.1, langB)
    {
      if selected.None? || selected.value == "" then ("", "", None)
      else
        var parts := Split(selected.value, Separator);
        if |parts| != 2 then ("", "", None)
        else
          var a, b := Strip(parts[0]), Strip(parts[1]);
          (a, b, Some(Speak(b, langB)))
    }

    /** `_filter_list`: the labels of the term list that contain the query,
        case ignored, in list order; no query gives the whole list. */
    function FilterList(query: Option<string>): (r: seq<string>)
      reads this
      ensures IsSubsequence(r, termList)
      ensures query.None? || query.value == "" ==> r == termList
      ensures query.Some? ==> forall x ::
        (multiset(r)[x] == if Contains(Lower(x), Lower(query.value)) then multiset(termList)[x] else 0)
    {
      if query.None? || query.value == "" || termList == [] then
        SubsequenceOfItself(termList);
        EveryLabelContainsEmpty();
        termList
      else
        KeepMatchingSpec(Lower(query.value), termList);
        KeepMatching(Lower(query.value), termList)
    }

    /** The result boxes (A box, B box) `search_and_display` fills, as written:
        whether the query goes in the A box is decided by the untrimmed query. */
    function PlaceAsWritten(term: string): (r: (string, string))
      reads this
      ensures r == (term, Search(Some(term)).Message()) || r == (Search(Some(term)).Message(), term)
      ensures Search(Some(term)).Message() == NotFoundMessage ==> r == (term, NotFoundMessage)
      ensures Search(Some(term)).Message() != NotFoundMessage && Lower(term) in glossaryA ==>
        r == (term, Search(Some(term)).Message())
      ensures Search(Some(term)).Message() != NotFoundMessage && Lower(term) !in glossaryA ==>
        r == (Search(Some(term)).Message(), term)
    {
      var text := Search(Some(term)).Message();
      if text == NotFoundMessage then (term, text)
      else if Lower(term) in glossaryA then (term, text)
      else (text, term)
    }

    /** The corrected placement: as `PlaceAsWritten`, but the decision is made
        on the trimmed query, the term `Search` looked up. */
    function Place(term: string): (r: (string, string))
      reads this
      ensures r == (term, Search(Some(term)).Message()) || r == (Search(Some(term)).Message(), term)
      ensures Search(Some(term)).Message() == NotFoundMessage ==> r == (term, NotFoundMessage)
    {
      var text := Search(Some(term)).Message();
      if text == NotFoundMessage then (term, text)
      else if Lower(Strip(term)) in glossaryA then (term, text)
      else (text, term)
    }
  }

  // ---------------------------------------------------------------------------
  // Filtering

  lemma {:induction false} SubsequenceOfItself(xs: seq<string>)
    ensures IsSubsequence(xs, xs)
    decreases |xs|
  {
    if xs != [] {
      SubsequenceOfItself(xs[1..]);
    }
  }

  /** Every label contains the empty string. */
  lemma EveryLabelContainsEmpty()
    ensures forall x :: Contains(Lower(x), "")
  {
    forall x ensures Contains(Lower(x), "") {
      assert Lower(x)[..0] == "";
    }
  }

  /** The filtered labels keep their order, and each label occurs in them as
      often as in the list when it matches, and not at all otherwise. */
  lemma {:induction false} KeepMatchingSpec(needle: string, labels: seq<string>)
    ensures IsSubsequence(KeepMatching(needle, labels), labels)
    ensures forall x ::
      (multiset(KeepMatching(needle, labels))[x] == if Contains(Lower(x), needle) then multiset(labels)[x] else 0)
    decreases |labels|
  {
    if labels != [] {
      var head, tail := labels[0], labels[1..];
      var rest := KeepMatching(needle, tail);
      KeepMatchingSpec(needle, tail);
      assert labels == [head] + tail;
      if Contains(Lower(head), needle) {
        assert KeepMatching(needle, labels) == [head] + rest;
        assert ([head] + rest)[1..] == rest;
      } else {
        assert KeepMatching(needle, labels) == rest;
        SubsequenceDropFront(rest, labels);
      }
    }
  }

  /** A subsequence of the tail is a subsequence of the whole. */
  lemma SubsequenceDropFront(xs: seq<string>, ys: seq<string>)
    requires ys != [] && IsSubsequence(xs, ys[1..])
    ensures IsSubsequence(xs, ys)
  {
  }

  /** Filtering the filtered labels with the same query changes nothing. */
  lemma {:induction false} KeepMatchingIdempotent(needle: string, labels: seq<string>)
    ensures KeepMatching(needle, KeepMatching(needle, labels)) == KeepMatching(needle, labels)
    decreases |labels|
  {
    if labels != [] {
      var rest := KeepMatching(needle, labels[1..]);
      KeepMatchingIdempotent(needle, labels[1..]);
      if Contains(Lower(labels[0]), needle) {
        var kept := [labels[0]] + rest;
        assert KeepMatching(needle, labels) == kept;
        assert kept[0] == labels[0] && kept[1..] == rest;
        assert KeepMatching(needle, kept) == [labels[0]] + KeepMatching(needle, rest);
      } else {
        assert KeepMatching(needle, labels) == rest;
      }
    }
  }

  // ---------------------------------------------------------------------------
  // What loading a table builds, row by row

  /** One more row updates both maps at that row's keys and adds its label. */
  lemma IndexesStep(rows: seq<Row>, i: nat)
    requires i < |rows|
    ensures ForwardIndex(rows[..i + 1]) == ForwardIndex(rows[..i])[Lower(Strip(rows[i].0)) := Strip(rows[i].1)]
    ensures BackwardIndex(rows[..i + 1]) == BackwardIndex(rows[..i])[Strip(rows[i].1) := Strip(rows[i].0)]
    ensures Labels(rows[..i + 1]) == Labels(rows[..i]) + [Label(Strip(rows[i].0), Strip(rows[i].1))]
  {
    assert ForwardPairs(rows[..i + 1]) == ForwardPairs(rows[..i]) + [ForwardPair(rows[i])];
    LastWinsSnoc(ForwardPairs(rows[..i]), ForwardPair(rows[i]));
    assert BackwardPairs(rows[..i + 1]) == BackwardPairs(rows[..i]) + [BackwardPair(rows[i])];
    LastWinsSnoc(BackwardPairs(rows[..i]), BackwardPair(rows[i]));
    assert Labels(rows[..i + 1]) == Labels(rows[..i]) + [RowLabel(rows[i])];
  }

  /** The forward keys are the lower-cased trimmed A terms of the rows, and
      each forward entry is the pair of some row. */
  lemma ForwardIndexFromRows(rows: seq<Row>)
    ensures forall k :: k in ForwardIndex(rows) <==> exists i :: 0 <= i < |rows| && ForwardPairs(rows)[i].0 == k
    ensures forall k :: k in ForwardIndex(rows) ==> exists i :: 0 <= i < |rows| && ForwardPairs(rows)[i] == (k, ForwardIndex(rows)[k])
  {
    var fw := ForwardPairs(rows);
    LastWinsFromPairs(fw);
    forall k | k in ForwardIndex(rows) ensures exists i :: 0 <= i < |rows| && fw[i] == (k, ForwardIndex(rows)[k]) {
      var i :| 0 <= i < |fw| && fw[i] == (k, ForwardIndex(rows)[k]);
    }
  }

  /** The backward keys are the trimmed B terms of the rows, and each backward
      entry is the pair of some row. */
  lemma BackwardIndexFromRows(rows: seq<Row>)
    ensures forall k :: k in BackwardIndex(rows) <==> exists i :: 0 <= i < |rows| && BackwardPairs(rows)[i].0 == k
    ensures forall k :: k in BackwardIndex(rows) ==> exists i :: 0 <= i < |rows| && BackwardPairs(rows)[i] == (k, BackwardIndex(rows)[k])
  {
    var bw := BackwardPairs(rows);
    LastWinsFromPairs(bw);
    forall k | k in BackwardIndex(rows) ensures exists i :: 0 <= i < |rows| && bw[i] == (k, BackwardIndex(rows)[k]) {
      var i :| 0 <= i < |bw| && bw[i] == (k, BackwardIndex(rows)[k]);
    }
  }

  /** The forward map gives a row's trimmed B term for its lower-cased trimmed
      A term when no later row has the same lower-cased A term. */
  lemma ForwardIndexLastRow(rows: seq<Row>, i: nat)
    requires i < |rows|
    requires forall j :: i < j < |rows| ==> Lower(Strip(rows[j].0)) != Lower(Strip(rows[i].0))
    ensures Lower(Strip(rows[i].0)) in ForwardIndex(rows)
    ensures ForwardIndex(rows)[Lower(Strip(rows[i].0))] == Strip(rows[i].1)
  {
    var fw := ForwardPairs(rows);
    forall j | i < j < |fw| ensures fw[j].0 != fw[i].0 { }
    LastWinsLast(fw, i);
  }

  /** The backward map gives a row's trimmed A term for its trimmed B term
      when no later row has the same B term. */
  lemma BackwardIndexLastRow(rows: seq<Row>, i: nat)
    requires i < |rows|
    requires forall j :: i < j < |rows| ==> Strip(rows[j].1) != Strip(rows[i].1)
    ensures Strip(rows[i].1) in BackwardIndex(rows)
    ensures BackwardIndex(rows)[Strip(rows[i].1)] == Strip(rows[i].0)
  {
    var bw := BackwardPairs(rows);
    forall j | i < j < |bw| ensures bw[j].0 != bw[i].0 { }
    LastWinsLast(bw, i);
  }

  /** The number of forward keys, which the status line reports, is at most
      the number of rows, and equal to it exactly when no two rows share a
      lower-cased A term. */
  lemma ForwardIndexSize(rows: seq<Row>)
    ensures |ForwardIndex(rows)| <= |rows|
    ensures |ForwardIndex(rows)| == |rows| <==>
      forall i, j :: 0 <= i < j < |rows| ==> Lower(Strip(rows[i].0)) != Lower(Strip(rows[j].0))
  {
    var fw := ForwardPairs(rows);
    LastWinsSize(fw);
    assert DistinctKeys(fw) <==>
      forall i, j :: 0 <= i < j < |rows| ==> Lower(Strip(rows[i].0)) != Lower(Strip(rows[j].0)) by {
      forall i, j | 0 <= i < j < |rows| ensures fw[i].0 == Lower(Strip(rows[i].0)) && fw[j].0 == Lower(Strip(rows[j].0)) { }
    }
  }

  /** Between the fixed prefix and suffix of the status line stand decimal
      digits, and they read back as the count reported. */
  lemma StatusCount(count: nat)
    ensures |StatusPrefix| + |StatusSuffix| < |StatusMessage(count)|
    ensures var digits := StatusMessage(count)[|StatusPrefix|..|StatusMessage(count)| - |StatusSuffix|];
      && (forall k :: 0 <= k < |digits| ==> '0' <= digits[k] <= '9')
      && DecimalValue(digits) == count
  {
    var m := StatusMessage(count);
    assert m[|StatusPrefix|..|m| - |StatusSuffix|] == NatToString(count);
    NatToStringValue(count);
  }

  /** Different counts give different status lines. */
  lemma StatusMessageInjective(m: nat, n: nat)
    requires StatusMessage(m) == StatusMessage(n)
    ensures m == n
  {
    StatusCount(m);
    StatusCount(n);
  }

  // ---------------------------------------------------------------------------
  // Searching a loaded session

  /** A query in any casing of a row's A term, with any surrounding whitespace,
      finds the row's B term and speaks it in language B, when the row is the
      last with that lower-cased A term and its B term is not empty. */
  lemma SearchFindsForward(g: Bilinguo, i: nat, q: string)
    requires g.Indexed() && i < |g.rows|
    requires forall j :: i < j < |g.rows| ==> Lower(Strip(g.rows[j].0)) != Lower(Strip(g.rows[i].0))
    requires Strip(g.rows[i].1) != ""
    requires q != "" && Lower(Strip(q)) == Lower(Strip(g.rows[i].0))
    ensures g.Search(Some(q)) == Found(Strip(g.rows[i].1), g.langB)
  {
    ForwardIndexLastRow(g.rows, i);
  }

  /** A query equal to a row's B term (case kept, whitespace trimmed) finds the
      row's A term and speaks it in language A, when the row is the last with
      that B term, its A term is not empty, and the query is no row's A term in
      any casing. */
  lemma SearchFindsBackward(g: Bilinguo, i: nat, q: string)
    requires g.Indexed() && i < |g.rows|
    requires forall j :: i < j < |g.rows| ==> Strip(g.rows[j].1) != Strip(g.rows[i].1)
    requires Strip(g.rows[i].0) != ""
    requires q != "" && Strip(q) == Strip(g.rows[i].1)
    requires forall j :: 0 <= j < |g.rows| ==> Lower(Strip(g.rows[j].0)) != Lower(Strip(q))
    ensures g.Search(Some(q)) == Found(Strip(g.rows[i].0), g.langA)
  {
    BackwardIndexLastRow(g.rows, i);
    ForwardIndexFromRows(g.rows);
    assert Lower(Strip(q)) !in g.glossaryA;
  }

  /** The forward map answers first: a query whose lower-cased trimmed text is
      the lower-cased A term of a row gets that row's B term, even when the
      query is also some row's B term. */
  lemma SearchForwardShadowsBackward(g: Bilinguo, i: nat, j: nat)
    requires g.Indexed() && i < |g.rows| && j < |g.rows|
    requires g.rows[i].1 != "" && Lower(Strip(g.rows[i].1)) == Lower(Strip(g.rows[j].0))
    requires forall k :: j < k < |g.rows| ==> Lower(Strip(g.rows[k].0)) != Lower(Strip(g.rows[j].0))
    requires Strip(g.rows[j].1) != ""
    ensures g.Search(Some(g.rows[i].1)) == Found(Strip(g.rows[j].1), g.langB)
  {
    SearchFindsForward(g, j, g.rows[i].1);
  }

  /** A query of whitespace only is not an empty query: it is looked up as the
      empty term, and is not found when no cell of the table is blank. */
  lemma SearchBlankQuery(g: Bilinguo, q: string)
    requires g.Indexed() && q != "" && AllSpace(q)
    requires forall j :: 0 <= j < |g.rows| ==> Strip(g.rows[j].0) != "" && Strip(g.rows[j].1) != ""
    ensures g.Search(Some(q)) == NotFound
  {
    StripEmpty(q);
    assert Strip(q) == "" && Lower("") == "";
    ForwardIndexFromRows(g.rows);
    BackwardIndexFromRows(g.rows);
    assert "" !in g.glossaryA by {
      forall j | 0 <= j < |g.rows| ensures ForwardPairs(g.rows)[j].0 != "" {
        assert |Lower(Strip(g.rows[j].0))| == |Strip(g.rows[j].0)|;
      }
    }
    assert "" !in g.glossaryB by {
      forall j | 0 <= j < |g.rows| ensures BackwardPairs(g.rows)[j].0 != "" { }
    }
  }

  /** On a hit, the speech language is language B exactly when the trimmed query,
      lower-cased, is a forward key, whichever map gave the translation. */
  lemma SpeechFollowsForwardKey(g: Bilinguo, q: string)
    requires g.LanguagesValid() && g.Search(Some(q)).Found?
    ensures g.Search(Some(q)).speechLang == g.langB <==> Lower(Strip(q)) in g.glossaryA
    ensures g.Search(Some(q)).speechLang == g.langA <==> Lower(Strip(q)) !in g.glossaryA
  {
  }

  /** A forward key whose B term is blank passes the search on to the backward
      map, yet the A term found there is spoken in language B. */
  lemma BlankForwardSpeaksBackwardInB(g: Bilinguo, q: string)
    requires q != ""
    requires Lower(Strip(q)) in g.glossaryA && g.glossaryA[Lower(Strip(q))] == ""
    requires Strip(q) in g.glossaryB && g.glossaryB[Strip(q)] != ""
    ensures g.Search(Some(q)) == Found(g.glossaryB[Strip(q)], g.langB)
  {
  }

  // ---------------------------------------------------------------------------
  // Clicking a label

  /** The separator holds its arrow once, at position 2. */
  lemma SeparatorArrow()
    ensures |Separator| == 5 && Separator[2] == '↔'
    ensures forall k :: 0 <= k < |Separator| && k != 2 ==> Separator[k] != Separator[2]
  {
    assert Separator == [' ', ' ', '↔', ' ', ' '];
  }

  /** The label of two terms without the arrow splits back into the two terms. */
  lemma LabelSplits(a: string, b: string)
    requires '↔' !in a && '↔' !in b
    ensures Split(Label(a, b), Separator) == [a, b]
  {
    SeparatorArrow();
    SplitAroundMarker(a, Separator, b, 2);
  }

  /** Clicking the label of a loaded row gives back the row's trimmed terms and
      speaks its B term in language B, when neither term contains the arrow
      of the separator. */
  lemma ClickLabelRoundTrip(g: Bilinguo, i: nat)
    requires g.Indexed() && i < |g.rows|
    requires '↔' !in g.rows[i].0 && '↔' !in g.rows[i].1
    ensures i < |g.termList|
    ensures g.ClickTerm(Some(g.termList[i])) ==
      (Strip(g.rows[i].0), Strip(g.rows[i].1), Some(Speak(Strip(g.rows[i].1), g.langB)))
  {
    var a, b := Strip(g.rows[i].0), Strip(g.rows[i].1);
    StripKeepsOut(g.rows[i].0, '↔');
    StripKeepsOut(g.rows[i].1, '↔');
    LabelSplits(a, b);
    assert g.termList[i] == Label(a, b);
    StripIdempotent(g.rows[i].0);
    StripIdempotent(g.rows[i].1);
  }

  // ---------------------------------------------------------------------------
  // Placing a search result

  /** A translation always lands in the box of the language it is spoken in. */
  lemma PlaceFollowsSpeech(g: Bilinguo, term: string)
    requires g.LanguagesValid()
    requires g.Search(Some(term)).Found? && g.Search(Some(term)).translation != NotFoundMessage
    ensures g.Search(Some(term)).speechLang == g.langB ==> g.Place(term) == (term, g.Search(Some(term)).translation)
    ensures g.Search(Some(term)).speechLang == g.langA ==> g.Place(term) == (g.Search(Some(term)).translation, term)
  {
  }

  /** On a query without surrounding whitespace the placement as written and
      the corrected one agree, so `PlaceFollowsSpeech` holds of the source
      for every such query. */
  lemma PlaceAsWrittenTrimmed(g: Bilinguo, term: string)
    requires Strip(term) == term
    ensures g.PlaceAsWritten(term) == g.Place(term)
  {
  }

  /** As written, a query with surrounding whitespace is found as an A term and
      its translation spoken in language B, but the translation is put in the
      box of language A. */
  lemma PaddedQueryMisplaced(g: Bilinguo)
    requires g.glossaryA == map["hello" := "嗨"]
    ensures g.Search(Some(" Hello")) == Found("嗨", g.langB)
    ensures g.PlaceAsWritten(" Hello") == ("嗨", " Hello")
    ensures g.Place(" Hello") == (" Hello", "嗨")
  {
    assert TrimStart(" Hello") == "Hello";
    assert Strip(" Hello") == "Hello";
    assert Lower("Hello") == "hello";
    assert |Lower(" Hello")| == 6;
  }
}
