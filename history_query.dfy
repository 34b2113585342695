/**
 * `getHistory`: the listing of generations, over an abstract Generation table joined to a
 * Language table. The table is a sequence of rows in insertion order; the database's
 * `ORDER BY createdAt DESC LIMIT n OFFSET m` is a stable sort followed by a window.
 */
module HistoryQuery {
  import opened Wrappers
  import opened Api
  import opened Seqs

  /** Reference data: a supported target language. */
  datatype Language = Language(id: int, key: string, name: string)

  /** A stored generation; `languageId` refers to a Language. */
  datatype Generation = Generation(id: int, prompt: string, code: string, languageId: int, createdAt: int)

  /**
   * The query string of `GET /api/history`: `page` and `limit` as `parseInt` read them
   * (`None` when absent or not a number), `language` as given.
   */
  datatype Query = Query(page: Option<int>, limit: Option<int>, language: Option<string>)

  datatype Meta = Meta(page: int, limit: int, totalItems: nat, totalPages: int)

  /** A 200 reply `{data, meta}`, or the 500 reply `{error: 'Failed to fetch history'}`. */
  datatype Reply = Listed(data: seq<Item>, meta: Meta) | StorageError {
    /** 200 for a listing, 500 when the query or the formatting failed. */
    function Status(): (r: int)
      ensures r == 200 <==> Listed?
      ensures r == 500 <==> StorageError?
    {
      if Listed? then 200 else 500
    }
  }

  const DefaultPage: int := 1
  const DefaultLimit: int := 10
  const MaxLimit: int := 100

  /** `parseInt(x) || d`: NaN and 0 are both falsy, so either gives the default. */
  function IntOr(parsed: Option<int>, d: int): (r: int)
    ensures d != 0 ==> r != 0
    ensures parsed.Some? && parsed.value != 0 ==> r == parsed.value
    ensures parsed.None? || parsed.value == 0 ==> r == d
  {
    if parsed.Some? && parsed.value != 0 then parsed.value else d
  }

  /** The `page` query parameter: the one given when it parses to a non-zero number, else 1. */
  function PageOf(q: Query): (r: int)
    ensures r != 0
    ensures r == DefaultPage || q.page == Some(r)
    ensures q.page.Some? && q.page.value != 0 ==> r == q.page.value
  {
    IntOr(q.page, DefaultPage)
  }

  /** The `limit` query parameter: the one given when it parses to a non-zero number, else 10. */
  function LimitOf(q: Query): (r: int)
    ensures r != 0
    ensures r == DefaultLimit || q.limit == Some(r)
    ensures q.limit.Some? && q.limit.value != 0 ==> r == q.limit.value
  {
    IntOr(q.limit, DefaultLimit)
  }

  /**
   * `(page - 1) * limit`. For a positive limit it is negative exactly for a page below 1,
   * which MySQL refuses as an OFFSET; page 1 starts at row 0.
   */
  function Offset(page: int, limit: int): (r: int)
    ensures limit > 0 ==> (r < 0 <==> page < 1)
    ensures page == 1 ==> r == 0
  {
    var r := (page - 1) * limit;
    assert limit > 0 && page < 1 ==> r < 0 by {
      if limit > 0 && page < 1 {
        var a := 1 - page;
        assert a * limit >= limit;
        assert r == -(a * limit);
      }
    }
    r
  }

  /** `Math.min(limit, 100)`. */
  function ClampLimit(limit: int): (r: int)
    ensures r <= limit && r <= MaxLimit
    ensures r == limit || r == MaxLimit
  {
    if limit < MaxLimit then limit else MaxLimit
  }

  /** `Math.ceil(n / d)` for a positive divisor. */
  function CeilDiv(n: nat, d: int): nat
    requires d > 0
  {
    (n + d - 1) / d
  }

  /** `CeilDiv(n, d)` is the least number of pages of `d` rows that hold `n` rows. */
  lemma CeilDivBounds(n: nat, d: int)
    requires d > 0
    ensures (CeilDiv(n, d) - 1) * d < n <= CeilDiv(n, d) * d
  {
    var q := (n + d - 1) / d;
    assert q * d == n + d - 1 - (n + d - 1) % d;
    assert (q - 1) * d == q * d - d;
  }

  /**
   * A lookup in the Language table: `Language.findOne({where: {key}})`, and the join that
   * attaches to a row the Language whose id is its `languageId`. Both find the first match.
   */
  function Find(langs: seq<Language>, p: Language -> bool): (r: Option<Language>)
    ensures r.Some? ==> r.value in langs && p(r.value)
    ensures r.None? ==> forall l :: l in langs ==> !p(l)
  {
    if langs == [] then None
    else if p(langs[0]) then Some(langs[0])
    else Find(langs[1..], p)
  }

  /**
   * `whereClause.languageId`: set only when a non-empty key was given and some Language has
   * it; an unknown key is ignored and every row matches.
   */
  function LanguageFilter(langs: seq<Language>, key: Option<string>): (f: Option<int>)
    ensures f.Some? <==> key.Some? && key.value != "" && exists l :: l in langs && l.key == key.value
    ensures f.Some? ==> exists l :: l in langs && l.key == key.value && l.id == f.value
  {
    if key.Some? && key.value != "" then
      match Find(langs, (l: Language) => l.key == key.value)
      case Some(l) => Some(l.id)
      case None => None
    else None
  }

  predicate InFilter(filter: Option<int>, g: Generation) {
    filter.None? || g.languageId == filter.value
  }

  /** The rows that the where clause selects, in table order. */
  function Matching(rows: seq<Generation>, filter: Option<int>): (r: seq<Generation>)
    ensures forall k :: 0 <= k < |r| ==> InFilter(filter, r[k])
  {
    Filter(rows, (g: Generation) => InFilter(filter, g))
  }

  /** Matching keeps each selected row as often as the table holds it, and no other row. */
  lemma MatchingCounts(rows: seq<Generation>, filter: Option<int>)
    ensures forall g :: multiset(Matching(rows, filter))[g] == if InFilter(filter, g) then multiset(rows)[g] else 0
    ensures filter.None? ==> Matching(rows, filter) == rows
  {
    var p := (g: Generation) => InFilter(filter, g);
    FilterCounts(rows, p);
    if filter.None? {
      FilterKeepsAll(rows, p);
    }
  }

  /** `ORDER BY createdAt DESC`. */
  ghost predicate NewestFirst(s: seq<Generation>) {
    forall i, j :: 0 <= i < j < |s| ==> s[i].createdAt >= s[j].createdAt
  }

  /** A row no older than the head of a newest-first sequence can go in front of it. */
  lemma ConsNewestFirst(x: Generation, t: seq<Generation>)
    requires NewestFirst(t)
    requires t == [] || x.createdAt >= t[0].createdAt
    ensures NewestFirst([x] + t)
  {
    var r := [x] + t;
    forall i, j | 0 <= i < j < |r| ensures r[i].createdAt >= r[j].createdAt {
      assert r[j] == t[j - 1];
      if i > 0 {
        assert r[i] == t[i - 1];
      } else if j > 1 {
        assert t[0].createdAt >= t[j - 1].createdAt;
      }
    }
  }

  /** Insert `g` before the first row that is not newer than it. */
  function InsertByDate(g: Generation, s: seq<Generation>): (r: seq<Generation>)
    requires NewestFirst(s)
    ensures NewestFirst(r)
    ensures multiset(r) == multiset(s) + multiset{g}
    ensures |r| == |s| + 1
    ensures r[0] == g || (s != [] && r[0] == s[0])
  {
    if s == [] || s[0].createdAt <= g.createdAt then
      ConsNewestFirst(g, s);
      [g] + s
    else
      TailNewestFirst(s);
      var rest := InsertByDate(g, s[1..]);
      ConsNewestFirst(s[0], rest);
      assert multiset([s[0]] + rest) == multiset{s[0]} + multiset(s[1..]) + multiset{g};
      [s[0]] + rest
  }

  /** The tail of a newest-first sequence is newest first, and the sequence is its head and tail. */
  lemma TailNewestFirst(s: seq<Generation>)
    requires s != [] && NewestFirst(s)
    ensures NewestFirst(s[1..]) && multiset(s) == multiset{s[0]} + multiset(s[1..])
  {
    assert s == [s[0]] + s[1..];
    forall i, j | 0 <= i < j < |s[1..]| ensures s[1..][i].createdAt >= s[1..][j].createdAt {
      assert s[1..][i] == s[i + 1] && s[1..][j] == s[j + 1];
    }
  }

  /** The table sorted newest first; rows with equal `createdAt` keep their table order. */
  function SortNewestFirst(s: seq<Generation>): (r: seq<Generation>)
    ensures NewestFirst(r)
    ensures multiset(r) == multiset(s)
    ensures |r| == |s|
  {
    if s == [] then []
    else
      assert s == [s[0]] + s[1..];
      InsertByDate(s[0], SortNewestFirst(s[1..]))
  }

  /** The matching rows in the order the query returns them. */
  function Selected(langs: seq<Language>, rows: seq<Generation>, key: Option<string>): (r: seq<Generation>)
    ensures NewestFirst(r)
    ensures multiset(r) == multiset(Matching(rows, LanguageFilter(langs, key)))
    ensures |r| == |Matching(rows, LanguageFilter(langs, key))|
  {
    SortNewestFirst(Matching(rows, LanguageFilter(langs, key)))
  }

  /** `LIMIT count OFFSET offset`. */
  function Window(s: seq<Generation>, offset: nat, count: nat): (r: seq<Generation>)
    ensures |r| <= count
    ensures offset >= |s| ==> r == []
    ensures offset < |s| ==> |r| == if offset + count <= |s| then count else |s| - offset
    ensures forall k :: 0 <= k < |r| ==> offset + k < |s| && r[k] == s[offset + k]
  {
    if offset >= |s| then []
    else if offset + count <= |s| then s[offset..offset + count]
    else s[offset..]
  }

  /** `{id, prompt, code, language: row.Language.key, createdAt}`. */
  function FormatRow(g: Generation, l: Language): Item {
    Item(g.id, g.prompt, g.code, l.key, g.createdAt)
  }

  /** A row as the reply shows it, once the join has found its Language; `None` when there is none. */
  function Formatted(langs: seq<Language>, g: Generation): Option<Item> {
    match Find(langs, (l: Language) => l.id == g.languageId)
    case Some(l) => Some(FormatRow(g, l))
    case None => None
  }

  ghost predicate AllResolve(langs: seq<Language>, rows: seq<Generation>) {
    forall k :: 0 <= k < |rows| ==> Formatted(langs, rows[k]).Some?
  }

  /**
   * `rows.map(row => ({...}))`. A row whose Language is missing makes `row.Language.key`
   * throw, which the handler turns into a 500 reply (`None` here).
   */
  function FormatRows(langs: seq<Language>, rows: seq<Generation>): (r: Option<seq<Item>>)
    ensures r.Some? <==> AllResolve(langs, rows)
    ensures r.Some? ==> |r.value| == |rows|
    ensures r.Some? ==> forall k :: 0 <= k < |rows| ==> Formatted(langs, rows[k]) == Some(r.value[k])
  {
    if rows == [] then Some([])
    else
      match Formatted(langs, rows[0])
      case None => None
      case Some(item) =>
        match FormatRows(langs, rows[1..])
        case None =>
          assert !AllResolve(langs, rows) by {
            var k :| 0 <= k < |rows[1..]| && Formatted(langs, rows[1..][k]).None?;
            assert rows[k + 1] == rows[1..][k];
          }
          None
        case Some(rest) =>
          assert AllResolve(langs, rows) by {
            forall k | 0 <= k < |rows| ensures Formatted(langs, rows[k]).Some? {
              if k > 0 { assert rows[k] == rows[1..][k - 1]; }
            }
          }
          Some([item] + rest)
  }

  /** `data` shows, in order, the rows of `selected` from position `offset` on. */
  ghost predicate IsPage(langs: seq<Language>, data: seq<Item>, selected: seq<Generation>, offset: int) {
    forall k :: 0 <= k < |data| ==>
      0 <= offset + k < |selected| && Formatted(langs, selected[offset + k]) == Some(data[k])
  }

  /**
   * The reply for one page: MySQL refuses a negative LIMIT or OFFSET, which reaches the
   * handler as a rejected query; otherwise the window of `selected` is formatted.
   */
  function Respond(langs: seq<Language>, selected: seq<Generation>, offset: int, size: int, meta: Meta): (r: Reply)
    ensures r.StorageError? <==> offset < 0 || size < 0 || !AllResolve(langs, Window(selected, offset, size))
    ensures r.Listed? ==> r.meta == meta && |r.data| == |Window(selected, offset, size)|
    ensures r.Listed? ==> IsPage(langs, r.data, selected, offset)
  {
    if offset < 0 || size < 0 then StorageError
    else
      match FormatRows(langs, Window(selected, offset, size))
      case None => StorageError
      case Some(data) => Listed(data, meta)
  }

  /**
   * `getHistory` as written: the offset and `totalPages` use the requested limit, while
   * at most `Math.min(limit, 100)` rows are returned; `meta` echoes the parsed page and limit.
   */
  function GetHistory(langs: seq<Language>, rows: seq<Generation>, q: Query): (r: Reply)
    ensures PageOf(q) < 0 || LimitOf(q) < 0 ==> r.StorageError?
    ensures PageOf(q) > 0 && LimitOf(q) > 0 && AllResolve(langs, rows) ==> r.Listed?
    ensures r.Listed? ==> r.meta.page == PageOf(q) && r.meta.limit == LimitOf(q)
    ensures r.Listed? ==> r.meta.totalItems == |Matching(rows, LanguageFilter(langs, q.language))|
    ensures r.Listed? ==> LimitOf(q) > 0 && r.meta.totalPages == CeilDiv(r.meta.totalItems, LimitOf(q))
    ensures r.Listed? ==> |r.data| <= ClampLimit(LimitOf(q))
    ensures r.Listed? ==>
      |r.data| == |Window(Selected(langs, rows, q.language), Offset(PageOf(q), LimitOf(q)), ClampLimit(LimitOf(q)))|
    ensures r.Listed? && Offset(PageOf(q), LimitOf(q)) >= r.meta.totalItems ==> r.data == []
    ensures r.Listed? ==> IsPage(langs, r.data, Selected(langs, rows, q.language), Offset(PageOf(q), LimitOf(q)))
  {
    var page, limit := PageOf(q), LimitOf(q);
    var selected := Selected(langs, rows, q.language);
    var offset := Offset(page, limit);
    if limit < 0 then StorageError
    else
      assert AllResolve(langs, rows) && offset >= 0 ==>
             AllResolve(langs, Window(selected, offset, ClampLimit(limit))) by {
        if AllResolve(langs, rows) && offset >= 0 {
          WindowResolves(langs, rows, q.language, offset, ClampLimit(limit));
        }
      }
      Respond(langs, selected, offset, ClampLimit(limit),
              Meta(page, limit, |selected|, CeilDiv(|selected|, limit)))
  }

  /** Every row the query selects comes from the table. */
  lemma SelectedFromTable(langs: seq<Language>, rows: seq<Generation>, key: Option<string>, g: Generation)
    requires g in Selected(langs, rows, key)
    ensures g in rows && InFilter(LanguageFilter(langs, key), g)
  {
    var filter := LanguageFilter(langs, key);
    MatchingCounts(rows, filter);
    assert g in multiset(Selected(langs, rows, key));
    assert g in multiset(Matching(rows, filter));
  }

  /** When every row of the table has its Language, so does every row of any page. */
  lemma WindowResolves(langs: seq<Language>, rows: seq<Generation>, key: Option<string>, offset: nat, size: nat)
    requires AllResolve(langs, rows)
    ensures AllResolve(langs, Window(Selected(langs, rows, key), offset, size))
  {
    var w := Window(Selected(langs, rows, key), offset, size);
    forall k | 0 <= k < |w| ensures Formatted(langs, w[k]).Some? {
      SelectedFromTable(langs, rows, key, w[k]);
      var j :| 0 <= j < |rows| && rows[j] == w[k];
    }
  }

  /** Language ids are unique: the Language table's primary key. */
  ghost predicate UniqueLanguageIds(langs: seq<Language>) {
    forall i, j :: 0 <= i < |langs| && 0 <= j < |langs| && langs[i].id == langs[j].id ==> i == j
  }

  /** A page of the reply, as written or with the clamped page size, is ordered newest first. */
  lemma ListedNewestFirst(langs: seq<Language>, rows: seq<Generation>, q: Query)
    ensures var r := GetHistory(langs, rows, q);
      r.Listed? ==> forall i, j :: 0 <= i < j < |r.data| ==> r.data[i].createdAt >= r.data[j].createdAt
    ensures var r := GetHistoryClamped(langs, rows, q);
      r.Listed? ==> forall i, j :: 0 <= i < j < |r.data| ==> r.data[i].createdAt >= r.data[j].createdAt
  {
    var selected := Selected(langs, rows, q.language);
    var r := GetHistory(langs, rows, q);
    if r.Listed? {
      PageNewestFirst(langs, r.data, selected, Offset(PageOf(q), LimitOf(q)));
    }
    var c := GetHistoryClamped(langs, rows, q);
    if c.Listed? {
      PageNewestFirst(langs, c.data, selected, Offset(PageOf(q), ClampLimit(LimitOf(q))));
    }
  }

  /** A page cut from a newest-first sequence is newest first. */
  lemma PageNewestFirst(langs: seq<Language>, data: seq<Item>, selected: seq<Generation>, offset: int)
    requires IsPage(langs, data, selected, offset) && NewestFirst(selected)
    ensures forall i, j :: 0 <= i < j < |data| ==> data[i].createdAt >= data[j].createdAt
  {
    forall i, j | 0 <= i < j < |data| ensures data[i].createdAt >= data[j].createdAt {
      var di, dj := data[i], data[j];
      assert 0 <= offset + i < |selected| && Formatted(langs, selected[offset + i]) == Some(di);
      assert 0 <= offset + j < |selected| && Formatted(langs, selected[offset + j]) == Some(dj);
      var gi, gj := selected[offset + i], selected[offset + j];
      FormattedFields(langs, gi);
      FormattedFields(langs, gj);
    }
  }

  /**
   * Formatting succeeds exactly when the row's Language exists; the item then carries that
   * Language's key and keeps the row's id, prompt, code and creation time.
   */
  lemma FormattedFields(langs: seq<Language>, g: Generation)
    ensures Formatted(langs, g).Some? <==> exists l :: l in langs && l.id == g.languageId
    ensures Formatted(langs, g).Some? ==>
      exists l :: l in langs && l.id == g.languageId && Formatted(langs, g).value.language == l.key
    ensures Formatted(langs, g).Some? ==>
      var item := Formatted(langs, g).value;
      item.id == g.id && item.prompt == g.prompt && item.code == g.code && item.createdAt == g.createdAt
  {
  }

  /**
   * A language key that names a Language restricts the reply to that language: every
   * returned item carries the key.
   */
  lemma ListedHasRequestedKey(langs: seq<Language>, rows: seq<Generation>, q: Query)
    requires UniqueLanguageIds(langs)
    requires q.language.Some? && exists l :: l in langs && l.key == q.language.value
    requires q.language.value != ""
    ensures var r := GetHistory(langs, rows, q);
      r.Listed? ==> forall k :: 0 <= k < |r.data| ==> r.data[k].language == q.language.value
  {
    var r := GetHistory(langs, rows, q);
    if r.Listed? {
      var selected := Selected(langs, rows, q.language);
      var offset := Offset(PageOf(q), LimitOf(q));
      var filter := LanguageFilter(langs, q.language);
      var l :| l in langs && l.key == q.language.value && l.id == filter.value;
      forall k | 0 <= k < |r.data| ensures r.data[k].language == q.language.value {
        var g := selected[offset + k];
        SelectedFromTable(langs, rows, q.language, g);
        var found := Find(langs, (l: Language) => l.id == g.languageId).value;
        var i :| 0 <= i < |langs| && langs[i] == found;
        var j :| 0 <= j < |langs| && langs[j] == l;
      }
    }
  }

  /** A missing, empty or unknown language key filters nothing: every row of the table counts. */
  lemma UnknownKeyIgnored(langs: seq<Language>, rows: seq<Generation>, q: Query)
    requires q.language.None? || q.language.value == "" || forall l :: l in langs ==> l.key != q.language.value
    ensures var r := GetHistory(langs, rows, q);
      r.Listed? ==> r.meta.totalItems == |rows|
  {
    MatchingCounts(rows, LanguageFilter(langs, q.language));
  }

  /** With no query parameters (as the client sends it) the reply is page 1: the newest 10 rows, or all when fewer. */
  lemma DefaultQuery(langs: seq<Language>, rows: seq<Generation>)
    ensures var r := GetHistory(langs, rows, Query(None, None, None));
      r.Listed? ==> (r.meta.page == 1 && r.meta.limit == 10 && |r.data| == (if |rows| < 10 then |rows| else 10) && r.meta.totalItems == |rows| &&
        forall k :: 0 <= k < |r.data| ==> Formatted(langs, Selected(langs, rows, None)[k]) == Some(r.data[k]))
  {
    MatchingCounts(rows, None);
  }

  // ---------------------------------------------------------------------------
  // Paging with a limit above 100.

  /**
   * The intended listing: the limit is clamped first, and the offset and the page count
   * use the clamped page size, which `meta.limit` reports.
   */
  function GetHistoryClamped(langs: seq<Language>, rows: seq<Generation>, q: Query): (r: Reply)
    ensures PageOf(q) < 0 || LimitOf(q) < 0 ==> r.StorageError?
    ensures PageOf(q) > 0 && LimitOf(q) > 0 && AllResolve(langs, rows) ==> r.Listed?
    ensures r.Listed? ==> ClampLimit(LimitOf(q)) > 0 && r.meta.page == PageOf(q) && r.meta.limit == ClampLimit(LimitOf(q))
    ensures r.Listed? ==> r.meta.totalItems == |Matching(rows, LanguageFilter(langs, q.language))|
    ensures r.Listed? ==> r.meta.totalPages == CeilDiv(r.meta.totalItems, ClampLimit(LimitOf(q)))
    ensures r.Listed? ==> |r.data| <= ClampLimit(LimitOf(q))
    ensures r.Listed? ==>
      |r.data| == |Window(Selected(langs, rows, q.language), Offset(PageOf(q), ClampLimit(LimitOf(q))), ClampLimit(LimitOf(q)))|
    ensures r.Listed? ==> IsPage(langs, r.data, Selected(langs, rows, q.language), Offset(PageOf(q), ClampLimit(LimitOf(q))))
  {
    var page, limit := PageOf(q), LimitOf(q);
    var size := ClampLimit(limit);
    var selected := Selected(langs, rows, q.language);
    var offset := Offset(page, size);
    if size < 0 then StorageError
    else
      assert AllResolve(langs, rows) && offset >= 0 ==>
             AllResolve(langs, Window(selected, offset, size)) by {
        if AllResolve(langs, rows) && offset >= 0 {
          WindowResolves(langs, rows, q.language, offset, size);
        }
      }
      Respond(langs, selected, offset, size, Meta(page, size, |selected|, CeilDiv(|selected|, size)))
  }

  /**
   * With the clamped page size, position `j` of page `page` holds matching row
   * `(page - 1) * size + j`, and every such page lies within `totalPages`; with OnPage,
   * every matching row `i` is item `i % size` of page `i / size + 1`.
   */
  lemma ClampedPagesCoverAll(langs: seq<Language>, rows: seq<Generation>, key: Option<string>, limit: int, page: int, j: int)
    requires limit > 0 && AllResolve(langs, rows)
    requires page >= 1 && 0 <= j < ClampLimit(limit)
    requires Offset(page, ClampLimit(limit)) + j < |Selected(langs, rows, key)|
    ensures var r := GetHistoryClamped(langs, rows, Query(Some(page), Some(limit), key));
      && r.Listed? && page <= r.meta.totalPages && j < |r.data|
      && Formatted(langs, Selected(langs, rows, key)[Offset(page, ClampLimit(limit)) + j]) == Some(r.data[j])
  {
    var size := ClampLimit(limit);
    var selected := Selected(langs, rows, key);
    var q := Query(Some(page), Some(limit), key);
    var r := GetHistoryClamped(langs, rows, q);
    PageWithinTotal(page, size, j, |selected|);
    assert |r.data| == |Window(selected, Offset(page, size), size)|;
  }

  /** Euclidean division puts `i` at position `i % size` of the block starting at `(i / size) * size`. */
  lemma OnPage(i: nat, size: int)
    requires size > 0
    ensures i / size >= 0 && 0 <= i % size < size
    ensures Offset(i / size + 1, size) + i % size == i
  {
  }

  /** A page that holds a row is no later than `ceil(n / size)`. */
  lemma PageWithinTotal(page: int, size: int, j: nat, n: nat)
    requires size > 0 && page >= 1 && Offset(page, size) + j < n
    ensures page <= CeilDiv(n, size)
  {
    var c := CeilDiv(n, size);
    CeilDivBounds(n, size);
    if page > c {
      MulMonotone(c, page - 1, size);
      assert false;
    }
  }

  lemma MulMonotone(a: int, b: int, m: int)
    requires a <= b && m > 0
    ensures a * m <= b * m
  {
    assert b * m - a * m == (b - a) * m;
  }

  /**
   * As written, with `limit=101` the row at position 100 of the matching rows is on no
   * page: page 1 shows positions 0 to 99 and page 2 starts at position 101.
   */
  lemma AsWrittenSkipsRow(langs: seq<Language>, rows: seq<Generation>, key: Option<string>, page: int)
    requires 101 <= |Selected(langs, rows, key)|
    ensures var r := GetHistory(langs, rows, Query(Some(page), Some(101), key));
      r.Listed? ==> Offset(page, 101) + |r.data| <= 100 || Offset(page, 101) > 100
  {
    var r := GetHistory(langs, rows, Query(Some(page), Some(101), key));
    if r.Listed? {
      assert |r.data| <= 100;
      if page <= 1 {
        assert Offset(page, 101) <= 0;
      } else {
        assert Offset(page, 101) >= 101;
      }
    }
  }
}
