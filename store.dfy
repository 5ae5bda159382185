/**
  The url_chat table behind save_url_to_db and get_latest_url
  (services.py:96-145), held in memory: one row per dialog and website, the
  page text stored with it, and its creation time. `datetime.utcnow()` is a
  counter that every save moves forward.
 */
module Store {
  import opened Options
  import Cleaner
  import Enrichment

  /** A row: dialog_id, website, cleaned_content and created_at. */
  datatype Row = Row(dialogId: int, website: string, content: string, createdAt: nat)

  predicate HasKey(r: Row, dialogId: int, website: string) {
    r.dialogId == dialogId && r.website == website
  }

  /** The filter on dialog_id and website with `.first()`: the index of the row with that key, or `|rows|`. */
  function IndexOfRow(rows: seq<Row>, dialogId: int, website: string): (k: nat)
    ensures k <= |rows|
    ensures forall i :: 0 <= i < k ==> !HasKey(rows[i], dialogId, website)
    ensures k < |rows| ==> HasKey(rows[k], dialogId, website)
  {
    if rows == [] || HasKey(rows[0], dialogId, website) then 0
    else 1 + IndexOfRow(rows[1..], dialogId, website)
  }

  /** No two rows share a dialog and a website. */
  predicate KeysUnique(rows: seq<Row>) {
    forall i, j :: 0 <= i < j < |rows| ==> !HasKey(rows[j], rows[i].dialogId, rows[i].website)
  }

  /** No two rows were written at the same moment. */
  predicate DistinctStamps(rows: seq<Row>) {
    forall i, j :: 0 <= i < j < |rows| ==> rows[i].createdAt != rows[j].createdAt
  }

  /** Every row was written no later than `now`. */
  predicate StampsUpTo(rows: seq<Row>, now: nat) {
    forall i :: 0 <= i < |rows| ==> rows[i].createdAt <= now
  }

  /**
    save_url_to_db's write (services.py:115-135): the row with the key gets
    the new content and time in place; without one, a row is added.
   */
  function Upsert(rows: seq<Row>, dialogId: int, website: string, content: string, now: nat): (r: seq<Row>)
    ensures |r| == |rows| + (if IndexOfRow(rows, dialogId, website) < |rows| then 0 else 1)
    ensures Row(dialogId, website, content, now) in r
    ensures forall i :: 0 <= i < |rows| && i != IndexOfRow(rows, dialogId, website) ==> r[i] == rows[i]
  {
    var k := IndexOfRow(rows, dialogId, website);
    if k < |rows| then
      var r := rows[k := rows[k].(content := content, createdAt := now)];
      assert r[k] == Row(dialogId, website, content, now);
      r
    else
      assert (rows + [Row(dialogId, website, content, now)])[|rows|] == Row(dialogId, website, content, now);
      rows + [Row(dialogId, website, content, now)]
  }

  /**
    get_latest_url (services.py:142-145): a row of the dialog with the latest
    creation time, or None when the dialog has no row.
   */
  function LatestOf(rows: seq<Row>, dialogId: int): (r: Option<Row>)
    ensures r.Some? ==> r.value in rows && r.value.dialogId == dialogId
    ensures r.Some? ==> forall i :: 0 <= i < |rows| && rows[i].dialogId == dialogId ==> rows[i].createdAt <= r.value.createdAt
    ensures r.None? <==> forall i :: 0 <= i < |rows| ==> rows[i].dialogId != dialogId
  {
    if rows == [] then None
    else
      var rest := LatestOf(rows[1..], dialogId);
      assert forall i :: 1 <= i < |rows| ==> rows[i] == rows[1..][i - 1];
      if rows[0].dialogId != dialogId then rest
      else if rest.Some? && rest.value.createdAt > rows[0].createdAt then rest
      else Some(rows[0])
  }

  /** An upsert changes only the row with its key, or adds exactly that row. */
  lemma UpsertShape(rows: seq<Row>, dialogId: int, website: string, content: string, now: nat, r: seq<Row>)
    requires KeysUnique(rows) && r == Upsert(rows, dialogId, website, content, now)
    ensures (exists i :: 0 <= i < |rows| && HasKey(rows[i], dialogId, website)) ==> |r| == |rows|
    ensures (forall i :: 0 <= i < |rows| ==> !HasKey(rows[i], dialogId, website)) ==> |r| == |rows| + 1
    ensures |rows| <= |r| && forall i :: 0 <= i < |rows| && !HasKey(rows[i], dialogId, website) ==> r[i] == rows[i]
    ensures forall i :: 0 <= i < |r| ==> (HasKey(r[i], dialogId, website) <==> r[i] == Row(dialogId, website, content, now))
    ensures Row(dialogId, website, content, now) in r
    ensures forall i :: 0 <= i < |r| && !HasKey(r[i], dialogId, website) ==> i < |rows| && r[i] == rows[i]
  {
    var k := IndexOfRow(rows, dialogId, website);
    if k < |rows| {
      assert r[k] == Row(dialogId, website, content, now);
      forall i | 0 <= i < |r| && i != k ensures r[i] == rows[i] {
      }
    } else {
      assert r[|rows|] == Row(dialogId, website, content, now);
    }
  }

  /** An upsert at a time later than every row keeps keys unique, times distinct and bounded. */
  lemma UpsertKeepsInvariant(rows: seq<Row>, dialogId: int, website: string, content: string, now: nat)
    requires KeysUnique(rows) && DistinctStamps(rows) && now > 0 && StampsUpTo(rows, now - 1)
    ensures var r := Upsert(rows, dialogId, website, content, now);
      KeysUnique(r) && DistinctStamps(r) && StampsUpTo(r, now)
  {
    var k := IndexOfRow(rows, dialogId, website);
    var r := Upsert(rows, dialogId, website, content, now);
    if k == |rows| {
      forall i, j | 0 <= i < j < |r| ensures !HasKey(r[j], r[i].dialogId, r[i].website) {
        if j == |rows| {
          assert r[i] == rows[i];
        }
      }
    }
  }

  /** After a save, the latest row of the dialog is the row just saved. */
  lemma LatestAfterUpsert(rows: seq<Row>, dialogId: int, website: string, content: string, now: nat)
    requires now > 0 && StampsUpTo(rows, now - 1) && KeysUnique(rows)
    ensures LatestOf(Upsert(rows, dialogId, website, content, now), dialogId)
      == Some(Row(dialogId, website, content, now))
  {
    var r := Upsert(rows, dialogId, website, content, now);
    var x := Row(dialogId, website, content, now);
    UpsertShape(rows, dialogId, website, content, now, r);
    var latest := LatestOf(r, dialogId);
    var i :| 0 <= i < |r| && r[i] == x;
    assert latest.value.createdAt >= now;
    var m :| 0 <= m < |r| && r[m] == latest.value;
  }

  /** Replacing or adding a row of another dialog leaves the latest row of this one alone. */
  lemma {:induction false} LatestIgnoresOtherDialog(rows: seq<Row>, dialogId: int, k: nat, x: Row)
    requires k <= |rows| && x.dialogId != dialogId
    requires k < |rows| ==> rows[k].dialogId != dialogId
    ensures k < |rows| ==> LatestOf(rows[k := x], dialogId) == LatestOf(rows, dialogId)
    ensures k == |rows| ==> LatestOf(rows + [x], dialogId) == LatestOf(rows, dialogId)
  {
    if rows == [] {
      assert [] + [x] == [x];
    } else if k < |rows| {
      if k > 0 {
        assert rows[k := x][1..] == rows[1..][k - 1 := x];
        LatestIgnoresOtherDialog(rows[1..], dialogId, k - 1, x);
      } else {
        assert rows[k := x][1..] == rows[1..];
      }
    } else {
      assert (rows + [x])[1..] == rows[1..] + [x];
      LatestIgnoresOtherDialog(rows[1..], dialogId, k - 1, x);
    }
  }

  /** Saving for one dialog does not change the latest row of any other dialog. */
  lemma UpsertOtherDialog(rows: seq<Row>, dialogId: int, website: string, content: string, now: nat, other: int)
    requires other != dialogId
    ensures LatestOf(Upsert(rows, dialogId, website, content, now), other) == LatestOf(rows, other)
  {
    var k := IndexOfRow(rows, dialogId, website);
    if k < |rows| {
      LatestIgnoresOtherDialog(rows, other, k, rows[k].(content := content, createdAt := now));
    } else {
      LatestIgnoresOtherDialog(rows, other, k, Row(dialogId, website, content, now));
    }
  }

  /** Saving the same dialog and website twice leaves one row for them, holding the second content. */
  lemma UpsertTwice(rows: seq<Row>, dialogId: int, website: string, c1: string, c2: string, t1: nat, t2: nat)
    requires KeysUnique(rows)
    ensures var r1 := Upsert(rows, dialogId, website, c1, t1);
      var r2 := Upsert(r1, dialogId, website, c2, t2);
      |r2| == |r1| && r2 == r1[IndexOfRow(r1, dialogId, website) := Row(dialogId, website, c2, t2)]
  {
    var r1 := Upsert(rows, dialogId, website, c1, t1);
    UpsertShape(rows, dialogId, website, c1, t1, r1);
    var i :| 0 <= i < |r1| && r1[i] == Row(dialogId, website, c1, t1);
    assert HasKey(r1[i], dialogId, website);
    assert IndexOfRow(r1, dialogId, website) <= i;
  }

  /** The conversation store: the table and the clock standing in for `datetime.utcnow()`. */
  class ConversationStore {
    var rows: seq<Row>
    var clock: nat

    predicate Valid()
      reads this
    {
      KeysUnique(rows) && DistinctStamps(rows) && StampsUpTo(rows, clock)
    }

    constructor()
      ensures Valid() && rows == [] && clock == 0
    {
      rows := [];
      clock := 0;
    }

    /**
      save_url_to_db (services.py:96-138) once the page is fetched and the
      company record looked up: `pageText` is what the HTML parser extracted
      and `record` the dumped company record, if any.
     */
    method Save(dialogId: int, website: string, pageText: string, record: Option<string>)
      requires Valid()
      modifies this
      ensures Valid()
      ensures clock == old(clock) + 1
      ensures rows == Upsert(old(rows), dialogId, website,
                             Enrichment.Combine(Cleaner.Collapse(pageText), record), clock)
      ensures Latest(dialogId) == Some(Row(dialogId, website,
                                           Enrichment.Combine(Cleaner.Collapse(pageText), record), clock))
    {
      var content := Enrichment.Combine(Cleaner.Collapse(pageText), record);
      clock := clock + 1;
      UpsertKeepsInvariant(rows, dialogId, website, content, clock);
      LatestAfterUpsert(rows, dialogId, website, content, clock);
      var k := IndexOfRow(rows, dialogId, website);
      if k < |rows| {
        rows := rows[k := rows[k].(content := content, createdAt := clock)];
      } else {
        rows := rows + [Row(dialogId, website, content, clock)];
      }
    }

    /** get_latest_url (services.py:142-145). */
    function Latest(dialogId: int): (r: Option<Row>)
      reads this
      ensures r.Some? ==> r.value in rows && r.value.dialogId == dialogId
      ensures r.Some? ==> forall i :: 0 <= i < |rows| && rows[i].dialogId == dialogId ==> rows[i].createdAt <= r.value.createdAt
      ensures r.None? <==> forall i :: 0 <= i < |rows| ==> rows[i].dialogId != dialogId
    {
      LatestOf(rows, dialogId)
    }
  }
}
