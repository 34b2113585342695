/**
 * The Generation table as mutable state, and `deleteGeneration` over it. Listing reads
 * the table through HistoryQuery.
 */
module HistoryStore {
  import opened Wrappers
  import opened Api
  import opened Seqs
  import opened HistoryQuery

  /** The rows that `DELETE FROM Generations WHERE id = ?` leaves. */
  function WithoutId(rows: seq<Generation>, id: int): (r: seq<Generation>)
    ensures forall k :: 0 <= k < |r| ==> r[k].id != id
  {
    Filter(rows, (g: Generation) => g.id != id)
  }

  /**
   * Deletion removes every row with the id and no other row, keeping the order of the
   * rest; it removes something exactly when some row had the id.
   */
  lemma WithoutIdSpec(rows: seq<Generation>, id: int)
    ensures forall g :: multiset(WithoutId(rows, id))[g] == if g.id == id then 0 else multiset(rows)[g]
    ensures IsSubsequence(WithoutId(rows, id), rows)
    ensures |WithoutId(rows, id)| < |rows| <==> exists k :: 0 <= k < |rows| && rows[k].id == id
  {
    var keep := (g: Generation) => g.id != id;
    var r := WithoutId(rows, id);
    FilterCounts(rows, keep);
    FilterOrder(rows, keep);
    if exists k :: 0 <= k < |rows| && rows[k].id == id {
      var k :| 0 <= k < |rows| && rows[k].id == id;
      var gone := multiset(rows) - multiset(r);
      assert multiset(r) <= multiset(rows);
      assert multiset(rows) == multiset(r) + gone;
      assert rows[k] in gone;
      assert |multiset(rows)| == |multiset(r)| + |gone|;
    } else {
      FilterKeepsAll(rows, keep);
    }
  }

  /** The reply of `DELETE /api/history/:id`. */
  datatype DeleteReply = Deleted | NotFound {
    /** 200 when something was deleted, 404 otherwise. */
    function Status(): (r: int)
      ensures r == 200 <==> Deleted?
      ensures r == 404 <==> NotFound?
    {
      if Deleted? then 200 else 404
    }

    /** The reply body's text; the two replies say different things. */
    function Message(): (r: string)
      ensures Deleted? ==> r == "Generation deleted successfully"
      ensures NotFound? ==> r == "Generation not found"
    {
      if Deleted? then "Generation deleted successfully" else "Generation not found"
    }
  }

  class GenerationTable {
    /** The Language reference table, never changed by the application. */
    const languages: seq<Language>
    /** The Generation rows in insertion order. */
    var rows: seq<Generation>

    constructor (languages: seq<Language>, rows: seq<Generation>)
      ensures this.languages == languages && this.rows == rows
    {
      this.languages := languages;
      this.rows := rows;
    }

    /** `Generation.destroy({where: {id}})`: removes the rows with that id and returns how many it removed. */
    method Destroy(id: int) returns (deleted: nat)
      modifies this`rows
      ensures rows == WithoutId(old(rows), id)
      ensures deleted == |old(rows)| - |rows|
      ensures deleted > 0 <==> exists k :: 0 <= k < |old(rows)| && old(rows)[k].id == id
    {
      WithoutIdSpec(rows, id);
      var kept := WithoutId(rows, id);
      deleted := |rows| - |kept|;
      rows := kept;
    }
  }

  /** `deleteGeneration`: 200 when `destroy` removed a row, 404 when it removed none. */
  method DeleteGeneration(table: GenerationTable, id: int) returns (reply: DeleteReply)
    modifies table`rows
    ensures table.rows == WithoutId(old(table.rows), id)
    ensures reply == Deleted <==> exists k :: 0 <= k < |old(table.rows)| && old(table.rows)[k].id == id
  {
    var deleted := table.Destroy(id);
    if deleted > 0 {
      reply := Deleted;
    } else {
      reply := NotFound;
    }
  }

  /** Deleting the same id twice: the second call always answers 404 and changes nothing. */
  method DeleteTwice(table: GenerationTable, id: int) returns (first: DeleteReply, second: DeleteReply)
    modifies table`rows
    ensures table.rows == WithoutId(old(table.rows), id)
    ensures second == NotFound
  {
    first := DeleteGeneration(table, id);
    ghost var afterFirst := table.rows;
    second := DeleteGeneration(table, id);
    WithoutIdSpec(afterFirst, id);
    FilterKeepsAll(afterFirst, (g: Generation) => g.id != id);
  }

  /** After a delete, no listing of the table, as written or with the clamped page size, shows the deleted id. */
  lemma DeletedIdNotListed(langs: seq<Language>, rows: seq<Generation>, id: int, q: Query)
    ensures var r := GetHistory(langs, WithoutId(rows, id), q);
      r.Listed? ==> forall k :: 0 <= k < |r.data| ==> r.data[k].id != id
    ensures var r := GetHistoryClamped(langs, WithoutId(rows, id), q);
      r.Listed? ==> forall k :: 0 <= k < |r.data| ==> r.data[k].id != id
  {
    var rest := WithoutId(rows, id);
    var r := GetHistory(langs, rest, q);
    if r.Listed? {
      PageAvoidsId(langs, rows, id, q.language, r.data, Offset(PageOf(q), LimitOf(q)));
    }
    var c := GetHistoryClamped(langs, rest, q);
    if c.Listed? {
      PageAvoidsId(langs, rows, id, q.language, c.data, Offset(PageOf(q), ClampLimit(LimitOf(q))));
    }
  }

  /** A page cut from the rows left by a delete shows no item with the deleted id. */
  lemma PageAvoidsId(langs: seq<Language>, rows: seq<Generation>, id: int, key: Option<string>, data: seq<Item>, offset: int)
    requires IsPage(langs, data, Selected(langs, WithoutId(rows, id), key), offset)
    ensures forall k :: 0 <= k < |data| ==> data[k].id != id
  {
    var rest := WithoutId(rows, id);
    var selected := Selected(langs, rest, key);
    forall k | 0 <= k < |data| ensures data[k].id != id {
      var d := data[k];
      assert 0 <= offset + k < |selected| && Formatted(langs, selected[offset + k]) == Some(d);
      var g := selected[offset + k];
      FormattedFields(langs, g);
      SelectedFromTable(langs, rest, key, g);
    }
  }
}
