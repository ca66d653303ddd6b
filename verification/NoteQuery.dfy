/** Note listing and counting (internal/infrastructure/sqlite/repositories.go): the query
    buildNotesQuery assembles, its evaluation over a note and a card table, and paging. */
module NoteQuery {
  import opened Common
  import opened Notes
  import opened Text
  import opened Like

  datatype Card = Card(id: int, nid: int, did: int)
  datatype FilterSet = FilterSet(deckID: int, noteID: int, searchText: string, modFromUnix: int, modToUnix: int)
  datatype Pagination = Pagination(limit: int, offset: int)
  datatype QueryError = InvalidNoteListFilters

  // ---------- the query text ----------

  /** The conditions of the WHERE clause; each binds the argument at its own position. */
  datatype Condition = DeckIs | ModAtLeast | ModAtMost | FieldsLike
  datatype Arg = IntArg(n: int) | TextArg(s: string)
  datatype Query = Query(joinsCards: bool, conditions: seq<Condition>, args: seq<Arg>)

  /** A query under construction, extended the way fromWhere and args are. */
  function With(q: Query, c: Condition, a: Arg): Query {
    q.(conditions := q.conditions + [c], args := q.args + [a])
  }

  function WithMod(q: Query, f: FilterSet): Query {
    var q1 := if f.modFromUnix > 0 then With(q, ModAtLeast, IntArg(f.modFromUnix)) else q;
    if f.modToUnix > 0 then With(q1, ModAtMost, IntArg(f.modToUnix)) else q1
  }

  predicate GlobalSearch(f: FilterSet) {
    f.deckID == 0 && TrimSpace(f.searchText) != ""
  }

  function QueryFor(f: FilterSet): Result<Query, QueryError> {
    if GlobalSearch(f) then
      Ok(WithMod(Query(false, [FieldsLike], [TextArg(SearchPattern(f.searchText))]), f))
    else if f.deckID <= 0 then Err(InvalidNoteListFilters)
    else
      var q := WithMod(Query(true, [DeckIs], [IntArg(f.deckID)]), f);
      Ok(if f.searchText != "" then With(q, FieldsLike, TextArg(SearchPattern(f.searchText))) else q)
  }

  method BuildNotesQuery(f: FilterSet) returns (r: Result<Query, QueryError>)
    ensures r == QueryFor(f)
  {
    if f.deckID == 0 && TrimSpace(f.searchText) != "" {
      var conditions := [FieldsLike];
      var args := [TextArg(SearchPattern(f.searchText))];
      if f.modFromUnix > 0 {
        conditions, args := conditions + [ModAtLeast], args + [IntArg(f.modFromUnix)];
      }
      if f.modToUnix > 0 {
        conditions, args := conditions + [ModAtMost], args + [IntArg(f.modToUnix)];
      }
      return Ok(Query(false, conditions, args));
    }
    if f.deckID <= 0 {
      return Err(InvalidNoteListFilters);
    }
    var conditions := [DeckIs];
    var args := [IntArg(f.deckID)];
    if f.modFromUnix > 0 {
      conditions, args := conditions + [ModAtLeast], args + [IntArg(f.modFromUnix)];
    }
    if f.modToUnix > 0 {
      conditions, args := conditions + [ModAtMost], args + [IntArg(f.modToUnix)];
    }
    if f.searchText != "" {
      conditions, args := conditions + [FieldsLike], args + [TextArg(SearchPattern(f.searchText))];
    }
    return Ok(Query(true, conditions, args));
  }

  // ---------- evaluation ----------

  predicate HoldsOne(c: Condition, a: Arg, note: Note, card: Option<Card>) {
    match c
    case DeckIs => card.Some? && a.IntArg? && card.value.did == a.n
    case ModAtLeast => a.IntArg? && note.mod >= a.n
    case ModAtMost => a.IntArg? && note.mod <= a.n
    case FieldsLike => a.TextArg? && LikeOperator(a.s, note.flds)
  }

  /** Every placeholder is bound and every condition holds. */
  predicate Holds(conditions: seq<Condition>, args: seq<Arg>, note: Note, card: Option<Card>) {
    if conditions == [] then args == []
    else args != [] && HoldsOne(conditions[0], args[0], note, card) && Holds(conditions[1..], args[1..], note, card)
  }

  /** The rows the query yields for one note: one for each matching card when cards are
      joined, at most one otherwise. */
  function RowsOfNote(q: Query, note: Note, cards: seq<Card>): seq<Note> {
    if !q.joinsCards then
      if Holds(q.conditions, q.args, note, None) then [note] else []
    else if cards == [] then []
    else
      (if cards[0].nid == note.id && Holds(q.conditions, q.args, note, Some(cards[0])) then [note] else [])
      + RowsOfNote(q, note, cards[1..])
  }

  function SelectRows(q: Query, notes: seq<Note>, cards: seq<Card>): seq<Note> {
    if notes == [] then [] else RowsOfNote(q, notes[0], cards) + SelectRows(q, notes[1..], cards)
  }

  /** SELECT DISTINCT ... ORDER BY n.id. */
  function InsertRow(sorted: seq<Note>, note: Note): seq<Note> {
    if sorted == [] then [note]
    else if sorted[0] == note then sorted
    else if note.id < sorted[0].id then [note] + sorted
    else [sorted[0]] + InsertRow(sorted[1..], note)
  }

  function DistinctById(rows: seq<Note>): seq<Note> {
    if rows == [] then [] else InsertRow(DistinctById(rows[..|rows| - 1]), rows[|rows| - 1])
  }

  /** LIMIT and OFFSET; SQLite reads a negative offset as zero. */
  function Page(rows: seq<Note>, limit: nat, offset: int): seq<Note> {
    var lo := if offset < 0 then 0 else if offset > |rows| then |rows| else offset;
    var hi := if lo + limit > |rows| then |rows| else lo + limit;
    rows[lo..hi]
  }

  // ---------- what the filter means ----------

  predicate ValidFilter(f: FilterSet) {
    GlobalSearch(f) || f.deckID > 0
  }

  predicate ModInRange(f: FilterSet, note: Note) {
    (f.modFromUnix > 0 ==> note.mod >= f.modFromUnix) && (f.modToUnix > 0 ==> note.mod <= f.modToUnix)
  }

  predicate TextFound(f: FilterSet, note: Note) {
    f.searchText == "" || LikeOperator(SearchPattern(f.searchText), note.flds)
  }

  /** A note passes the filter: it is in range, holds the text, and with a deck filter has a
      card in that deck. */
  predicate Wanted(f: FilterSet, note: Note, cards: seq<Card>) {
    && ModInRange(f, note)
    && TextFound(f, note)
    && (f.deckID > 0 ==> exists card | card in cards :: card.nid == note.id && card.did == f.deckID)
  }

  lemma {:induction false} HoldsAppend(conditions: seq<Condition>, args: seq<Arg>, c: Condition, a: Arg,
                                       note: Note, card: Option<Card>)
    requires |conditions| == |args|
    ensures Holds(conditions + [c], args + [a], note, card) <==>
            Holds(conditions, args, note, card) && HoldsOne(c, a, note, card)
  {
    if conditions == [] {
      assert (conditions + [c])[1..] == [] && (args + [a])[1..] == [];
    } else {
      assert (conditions + [c])[1..] == conditions[1..] + [c] && (args + [a])[1..] == args[1..] + [a];
      HoldsAppend(conditions[1..], args[1..], c, a, note, card);
    }
  }

  lemma WithModMeaning(q: Query, f: FilterSet, note: Note, card: Option<Card>)
    requires |q.conditions| == |q.args|
    ensures var m := WithMod(q, f);
            && |m.conditions| == |m.args| && m.joinsCards == q.joinsCards
            && (Holds(m.conditions, m.args, note, card) <==>
                Holds(q.conditions, q.args, note, card) && ModInRange(f, note))
  {
    var q1 := if f.modFromUnix > 0 then With(q, ModAtLeast, IntArg(f.modFromUnix)) else q;
    HoldsAppend(q.conditions, q.args, ModAtLeast, IntArg(f.modFromUnix), note, card);
    HoldsAppend(q1.conditions, q1.args, ModAtMost, IntArg(f.modToUnix), note, card);
  }

  /** The assembled query with its positional arguments says what the filter says, on every
      row; and assembling fails exactly on an invalid filter. */
  lemma QueryMeansFilter(f: FilterSet, note: Note, card: Option<Card>)
    ensures QueryFor(f).Ok? <==> ValidFilter(f)
    ensures QueryFor(f).Ok? ==>
              var q := QueryFor(f).value;
              && |q.conditions| == |q.args|
              && (q.joinsCards <==> f.deckID > 0)
              && (Holds(q.conditions, q.args, note, card) <==>
                  && ModInRange(f, note) && TextFound(f, note)
                  && (f.deckID > 0 ==> card.Some? && card.value.did == f.deckID))
  {
    if GlobalSearch(f) {
      var pattern := TextArg(SearchPattern(f.searchText));
      assert [FieldsLike][1..] == [] && [pattern][1..] == [];
      WithModMeaning(Query(false, [FieldsLike], [pattern]), f, note, card);
    } else if f.deckID > 0 {
      assert [DeckIs][1..] == [] && [IntArg(f.deckID)][1..] == [];
      var q0 := Query(true, [DeckIs], [IntArg(f.deckID)]);
      WithModMeaning(q0, f, note, card);
      var q := WithMod(q0, f);
      HoldsAppend(q.conditions, q.args, FieldsLike, TextArg(SearchPattern(f.searchText)), note, card);
    }
  }

  /** A filter without a note id is valid exactly with a deck, or with no deck and a search text
      that is not all spaces. */
  lemma ValidFilterMeaning(f: FilterSet)
    ensures ValidFilter(f) <==>
            f.deckID > 0 || (f.deckID == 0 && exists i :: 0 <= i < |f.searchText| && !IsSpace(f.searchText[i]))
  {
    TrimSpaceEmpty(f.searchText);
  }

  /** The condition on a note, without the query: the bounds that are set, inclusive; the text,
      if there is one; and a card in the deck, if there is one. */
  lemma WantedMeaning(f: FilterSet, note: Note, cards: seq<Card>)
    requires NulFree(f.searchText) && NulFree(note.flds)
    ensures Wanted(f, note, cards) <==>
            && (f.modFromUnix <= 0 || f.modFromUnix <= note.mod)
            && (f.modToUnix <= 0 || note.mod <= f.modToUnix)
            && (f.searchText == "" || Contains(f.searchText, note.flds))
            && (f.deckID <= 0 || exists i :: 0 <= i < |cards| && cards[i].nid == note.id && cards[i].did == f.deckID)
  {
    TextConditionIsContainment(f, note);
    if i :| 0 <= i < |cards| && cards[i].nid == note.id && cards[i].did == f.deckID {
      assert cards[i] in cards;
    }
    if f.searchText == "" {
      assert OccursAt("", note.flds, 0);
    }
  }

  // ---------- the rows are the wanted notes ----------

  lemma {:induction false} RowsOfNoteMeaning(f: FilterSet, note: Note, cards: seq<Card>)
    requires ValidFilter(f)
    ensures var rows := RowsOfNote(QueryFor(f).value, note, cards);
            (forall r | r in rows :: r == note) && (rows != [] <==> Wanted(f, note, cards))
  {
    QueryMeansFilter(f, note, None);
    if f.deckID > 0 && cards != [] {
      QueryMeansFilter(f, note, Some(cards[0]));
      RowsOfNoteMeaning(f, note, cards[1..]);
      assert forall card | card in cards :: card == cards[0] || card in cards[1..];
      assert cards[0] in cards && forall card | card in cards[1..] :: card in cards;
    }
  }

  lemma {:induction false} SelectRowsMeaning(f: FilterSet, notes: seq<Note>, cards: seq<Card>, n: Note)
    requires ValidFilter(f)
    ensures n in SelectRows(QueryFor(f).value, notes, cards) <==> n in notes && Wanted(f, n, cards)
  {
    if notes != [] {
      SelectRowsMeaning(f, notes[1..], cards, n);
      RowsOfNoteMeaning(f, notes[0], cards);
      assert n in notes <==> n == notes[0] || n in notes[1..];
      var rows := RowsOfNote(QueryFor(f).value, notes[0], cards);
      if n == notes[0] && rows != [] {
        assert rows[0] in rows;
      }
    }
  }

  ghost predicate AscendingIds(rows: seq<Note>) {
    forall i, j | 0 <= i < j < |rows| :: rows[i].id < rows[j].id
  }

  /** An id belongs to one note only, as in a table keyed by id. */
  ghost predicate KeyedById(rows: seq<Note>) {
    forall a, b | a in rows && b in rows && a.id == b.id :: a == b
  }

  lemma {:induction false} InsertRowMeaning(sorted: seq<Note>, note: Note)
    requires AscendingIds(sorted)
    requires forall a | a in sorted && a.id == note.id :: a == note
    ensures AscendingIds(InsertRow(sorted, note))
    ensures forall n :: n in InsertRow(sorted, note) <==> n in sorted || n == note
  {
    if sorted != [] && sorted[0] != note && note.id >= sorted[0].id {
      var rest := InsertRow(sorted[1..], note);
      InsertRowMeaning(sorted[1..], note);
      forall i | 0 <= i < |rest|
        ensures sorted[0].id < rest[i].id
      {
        assert rest[i] in rest && sorted[0] in sorted;
        if rest[i] != note {
          var k :| 0 <= k < |sorted[1..]| && sorted[1..][k] == rest[i];
          assert sorted[k + 1] == rest[i];
        }
      }
      assert InsertRow(sorted, note) == [sorted[0]] + rest;
      assert sorted == [sorted[0]] + sorted[1..];
    } else if sorted != [] {
      assert forall i | 0 <= i < |sorted| :: sorted[i].id >= sorted[0].id;
    }
  }

  lemma {:induction false} DistinctByIdMeaning(rows: seq<Note>)
    requires KeyedById(rows)
    ensures AscendingIds(DistinctById(rows))
    ensures forall n :: n in DistinctById(rows) <==> n in rows
  {
    if rows != [] {
      var n := |rows| - 1;
      assert rows == rows[..n] + [rows[n]];
      assert forall a | a in rows[..n] :: a in rows;
      DistinctByIdMeaning(rows[..n]);
      InsertRowMeaning(DistinctById(rows[..n]), rows[n]);
    }
  }

  // ---------- counting ----------

  /** SELECT COUNT(*) over the DISTINCT subquery. */
  function CountRows(rows: seq<Note>): nat {
    |set n | n in rows|
  }

  lemma {:induction false} AscendingSize(rows: seq<Note>)
    requires AscendingIds(rows)
    ensures |set n | n in rows| == |rows|
  {
    if rows != [] {
      var n := |rows| - 1;
      var front := rows[..n];
      AscendingSize(front);
      assert rows == front + [rows[n]];
      assert (set x | x in rows) == (set x | x in front) + {rows[n]};
      assert rows[n] !in front;
    }
  }

  /** The matching notes: every wanted note of the table, once, in strictly ascending id. */
  function MatchingNotes(f: FilterSet, notes: seq<Note>, cards: seq<Card>): seq<Note>
    requires ValidFilter(f)
  {
    QueryMeansFilter(f, Note(0, "", 0, "", 0, 0), None);
    DistinctById(SelectRows(QueryFor(f).value, notes, cards))
  }

  lemma MatchingNotesMeaning(f: FilterSet, notes: seq<Note>, cards: seq<Card>)
    requires ValidFilter(f) && KeyedById(notes)
    ensures var m := MatchingNotes(f, notes, cards);
            AscendingIds(m) && forall n :: n in m <==> n in notes && Wanted(f, n, cards)
  {
    QueryMeansFilter(f, Note(0, "", 0, "", 0, 0), None);
    var rows := SelectRows(QueryFor(f).value, notes, cards);
    forall n
      ensures n in rows <==> n in notes && Wanted(f, n, cards)
    {
      SelectRowsMeaning(f, notes, cards, n);
    }
    DistinctByIdMeaning(rows);
  }

  lemma CountIsMatching(f: FilterSet, notes: seq<Note>, cards: seq<Card>)
    requires ValidFilter(f) && KeyedById(notes)
    ensures CountRows(SelectRows(QueryFor(f).value, notes, cards)) == |MatchingNotes(f, notes, cards)|
  {
    QueryMeansFilter(f, Note(0, "", 0, "", 0, 0), None);
    var rows := SelectRows(QueryFor(f).value, notes, cards);
    var m := MatchingNotes(f, notes, cards);
    MatchingNotesMeaning(f, notes, cards);
    forall n
      ensures n in rows <==> n in notes && Wanted(f, n, cards)
    {
      SelectRowsMeaning(f, notes, cards, n);
    }
    assert (set n | n in rows) == (set n | n in m);
    AscendingSize(m);
  }

  // ---------- paging ----------

  /** A page holds the rows from the offset on, as many as the limit allows and there are; a
      negative offset counts as zero, and behind the end there is nothing. */
  lemma PageMeaning(rows: seq<Note>, limit: nat, offset: int, k: nat)
    ensures var page := Page(rows, limit, offset);
            var from := if offset >= 0 then offset else 0;
            && (k < |page| <==> k < limit && from + k < |rows|)
            && (k < |page| ==> page[k] == rows[from + k])
            && (from >= |rows| ==> page == [])
  {
  }

  /** The pages at offsets from, from + limit, ... up to the end, one after the other. */
  function PagesFrom(rows: seq<Note>, limit: nat, from: nat): seq<Note>
    requires limit > 0
    decreases |rows| - from
  {
    if from >= |rows| then [] else Page(rows, limit, from) + PagesFrom(rows, limit, from + limit)
  }

  lemma {:induction false} PagesCover(rows: seq<Note>, limit: nat, from: nat)
    requires limit > 0 && from <= |rows|
    ensures PagesFrom(rows, limit, from) == rows[from..]
    decreases |rows| - from
  {
    if from < |rows| {
      var to := if from + limit > |rows| then |rows| else from + limit;
      if from + limit <= |rows| {
        PagesCover(rows, limit, from + limit);
      }
      assert rows[from..] == rows[from..to] + rows[to..];
    }
  }

  /** Paging agrees with counting: for every valid filter and every positive limit the pages
      concatenate to the matching notes, which are exactly the wanted notes of the table, each
      once however many cards join to it, in strictly ascending id; and the count is their
      number. */
  lemma PagingAgreesWithCounting(f: FilterSet, notes: seq<Note>, cards: seq<Card>, limit: nat)
    requires ValidFilter(f) && KeyedById(notes) && limit > 0
    ensures var all := PagesFrom(MatchingNotes(f, notes, cards), limit, 0);
            && AscendingIds(all)
            && (forall n :: n in all <==> n in notes && Wanted(f, n, cards))
            && CountRows(SelectRows(QueryFor(f).value, notes, cards)) == |all|
  {
    var m := MatchingNotes(f, notes, cards);
    PagesCover(m, limit, 0);
    assert m[0..] == m;
    MatchingNotesMeaning(f, notes, cards);
    CountIsMatching(f, notes, cards);
  }

  /** With NUL-free text the text condition is plain containment, up to ASCII case. */
  lemma TextConditionIsContainment(f: FilterSet, note: Note)
    requires NulFree(f.searchText) && NulFree(note.flds)
    ensures TextFound(f, note) <==> Contains(f.searchText, note.flds)
  {
    if f.searchText == "" {
      assert OccursAt("", note.flds, 0);
    } else {
      LikeIsSubstringSearch(f.searchText, note.flds);
    }
  }

  // ---------- the repository ----------

  function WithId(notes: seq<Note>, id: int): Option<Note> {
    if notes == [] then None else if notes[0].id == id then Some(notes[0]) else WithId(notes[1..], id)
  }

  /** The lookup finds the note with the id, and nothing exactly when there is none. */
  lemma {:induction false} WithIdMeaning(notes: seq<Note>, id: int)
    ensures match WithId(notes, id)
            case Some(n) => n in notes && n.id == id
            case None => forall n | n in notes :: n.id != id
  {
    if notes != [] && notes[0].id != id {
      WithIdMeaning(notes[1..], id);
      assert forall n | n in notes :: n == notes[0] || n in notes[1..];
      assert forall n | n in notes[1..] :: n in notes;
    }
  }

  class NoteRepo {
    var notes: seq<Note>
    var cards: seq<Card>

    /** The row loop: every row of the answer is scanned, in order. */
    method QueryNotesRows(rows: seq<Note>) returns (result: seq<Note>)
      ensures result == rows
    {
      result := [];
      for i := 0 to |rows|
        invariant result == rows[..i]
      {
        result := result + [rows[i]];
      }
    }

    method ListNotes(f: FilterSet, page: Pagination) returns (r: Result<seq<Note>, QueryError>)
      ensures f.noteID > 0 ==>
                && r.Ok?
                && (KeyedById(notes) ==> forall n | n in notes && n.id == f.noteID :: r.value == [n])
                && (r.value == [] || (|r.value| == 1 && r.value[0] in notes && r.value[0].id == f.noteID))
                && (r.value == [] <==> forall n | n in notes :: n.id != f.noteID)
      ensures f.noteID <= 0 && !ValidFilter(f) ==> r == Err(InvalidNoteListFilters)
      ensures f.noteID <= 0 && ValidFilter(f) ==>
                r == Ok(Page(MatchingNotes(f, notes, cards), if page.limit <= 0 then 10 else page.limit, page.offset))
    {
      var limit := page.limit;
      if limit <= 0 {
        limit := 10;
      }
      if f.noteID > 0 {
        WithIdMeaning(notes, f.noteID);
        match WithId(notes, f.noteID) {
          case None => return Ok([]);
          case Some(n) => return Ok([n]);
        }
      }
      QueryMeansFilter(f, Note(0, "", 0, "", 0, 0), None);
      var query := BuildNotesQuery(f);
      if query.Err? {
        return Err(query.error);
      }
      var rows := Page(DistinctById(SelectRows(query.value, notes, cards)), limit, page.offset);
      var result := QueryNotesRows(rows);
      return Ok(result);
    }

    method CountNotes(f: FilterSet) returns (r: Result<nat, QueryError>)
      requires KeyedById(notes)
      ensures f.noteID > 0 ==> r == Ok(if exists n :: n in notes && n.id == f.noteID then 1 else 0)
      ensures f.noteID <= 0 && !ValidFilter(f) ==> r == Err(InvalidNoteListFilters)
      ensures f.noteID <= 0 && ValidFilter(f) ==> r == Ok(|MatchingNotes(f, notes, cards)|)
    {
      if f.noteID > 0 {
        WithIdMeaning(notes, f.noteID);
        return Ok(if WithId(notes, f.noteID).Some? then 1 else 0);
      }
      QueryMeansFilter(f, Note(0, "", 0, "", 0, 0), None);
      var query := BuildNotesQuery(f);
      if query.Err? {
        return Err(query.error);
      }
      CountIsMatching(f, notes, cards);
      return Ok(CountRows(SelectRows(query.value, notes, cards)));
    }
  }

  // ---------- the note ids of a deck ----------

  function InsertId(sorted: seq<int>, id: int): seq<int> {
    if sorted == [] || id < sorted[0] then [id] + sorted
    else if id == sorted[0] then sorted
    else [sorted[0]] + InsertId(sorted[1..], id)
  }

  /** ListNoteIDsByDeck: SELECT DISTINCT nid ... WHERE did = ? ORDER BY nid. */
  function NoteIDsByDeck(cards: seq<Card>, did: int): seq<int> {
    if cards == [] then []
    else
      var front := NoteIDsByDeck(cards[..|cards| - 1], did);
      if cards[|cards| - 1].did == did then InsertId(front, cards[|cards| - 1].nid) else front
  }

  ghost predicate Ascending(ids: seq<int>) {
    forall i, j | 0 <= i < j < |ids| :: ids[i] < ids[j]
  }

  lemma {:induction false} InsertIdMeaning(sorted: seq<int>, id: int)
    requires Ascending(sorted)
    ensures Ascending(InsertId(sorted, id))
    ensures forall x :: x in InsertId(sorted, id) <==> x in sorted || x == id
  {
    if sorted != [] && id > sorted[0] {
      var rest := InsertId(sorted[1..], id);
      InsertIdMeaning(sorted[1..], id);
      assert sorted == [sorted[0]] + sorted[1..];
      forall i | 0 <= i < |rest|
        ensures sorted[0] < rest[i]
      {
        assert rest[i] in rest;
        if rest[i] != id {
          var k :| 0 <= k < |sorted[1..]| && sorted[1..][k] == rest[i];
          assert sorted[k + 1] == rest[i];
        }
      }
    }
  }

  /** The cleaner's note list: strictly ascending, so without repetition, and exactly the
      notes that have a card in the deck. */
  lemma {:induction false} DeckNotesAreDistinct(cards: seq<Card>, did: int)
    ensures Ascending(NoteIDsByDeck(cards, did))
    ensures forall id :: id in NoteIDsByDeck(cards, did) <==>
                         exists card | card in cards :: card.did == did && card.nid == id
  {
    if cards != [] {
      var n := |cards| - 1;
      DeckNotesAreDistinct(cards[..n], did);
      InsertIdMeaning(NoteIDsByDeck(cards[..n], did), cards[n].nid);
      assert cards == cards[..n] + [cards[n]];
      assert cards[n] in cards && forall card | card in cards[..n] :: card in cards;
      assert forall card | card in cards :: card in cards[..n] || card == cards[n];
    }
  }
}
