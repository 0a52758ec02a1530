/**
 * The grades table: one item per subject, keyed by the subject name, and the
 * operation that writes only the subjects whose grades changed.
 */
module Store {
  import opened Wrappers
  import opened Dicts
  import opened Grades
  import opened Notifier

  /** One entry of the list `store_changed_grades` returns: `(old_grades_dict.get(name), grade)`. */
  type Write = (Option<Record>, Record)

  /** Every item is stored under its own subject name (`nome` is the table's key). */
  ghost predicate KeyedByName(items: map<string, Record>)
  {
    forall k :: k in items ==> items[k].name == k
  }

  /** `rs` lists the table: each stored item exactly once, in some order. */
  ghost predicate Lists(items: map<string, Record>, rs: seq<Record>)
  {
    && Distinct(Names(rs))
    && (forall i :: 0 <= i < |rs| ==> rs[i].name in items && items[rs[i].name] == rs[i])
    && (forall k :: k in items ==> k in Names(rs))
  }

  /**
   * `rs` reads the table back: each stored item exactly once, equal to what is
   * stored as Python compares records (score dicts may come back reordered).
   */
  ghost predicate ReadsBack(items: map<string, Record>, rs: seq<Record>)
  {
    && Distinct(Names(rs))
    && (forall i :: 0 <= i < |rs| ==> rs[i].name in items && Same(items[rs[i].name], rs[i]))
    && (forall k :: k in items ==> k in Names(rs))
  }

  /**
   * The loop of `store_changed_grades`: every new record that differs from the
   * old record of its name in `before`, paired with that old record, in list order.
   */
  function Writes(news: seq<Record>, before: Dict<string, Record>): seq<Write>
  {
    if news == [] then []
    else
      var n := |news| - 1;
      var g := news[n];
      Writes(news[..n], before) + if Differs(Get(before, g.name), g) then [(Get(before, g.name), g)] else []
  }

  /** `store_changed_grades(new_grades, old_grades)`: the list it returns. */
  function StoreChanges(news: seq<Record>, olds: seq<Record>): seq<Write>
  {
    Writes(news, ByName(olds))
  }

  /** The table after the `put_item` calls of a list of writes, in order. */
  function ApplyWrites(items: map<string, Record>, ws: seq<Write>): map<string, Record>
  {
    if ws == [] then items
    else
      var n := |ws| - 1;
      ApplyWrites(items, ws[..n])[ws[n].1.name := ws[n].1]
  }

  /** The new records of a list of writes, in order. */
  function Currents(ws: seq<Write>): (rs: seq<Record>)
    ensures |rs| == |ws|
    ensures forall i :: 0 <= i < |ws| ==> rs[i] == ws[i].1
  {
    seq(|ws|, i requires 0 <= i < |ws| => ws[i].1)
  }

  class GradeTable {
    /** The stored items by subject name. */
    var items: map<string, Record>

    ghost predicate Valid()
      reads this
    {
      KeyedByName(items)
    }

    constructor()
      ensures Valid() && items == map[]
    {
      items := map[];
    }

    /** `get_all_grades`: every stored item, once each (the scan's order is left open). */
    method GetAllGrades() returns (rs: seq<Record>)
      requires Valid()
      ensures Lists(items, rs)
    {
      rs := [];
      var pending := items.Keys;
      while pending != {}
        invariant pending <= items.Keys
        invariant Distinct(Names(rs))
        invariant forall i :: 0 <= i < |rs| ==>
          rs[i].name in items && items[rs[i].name] == rs[i] && rs[i].name !in pending
        invariant forall k :: k in items && k !in pending ==> k in Names(rs)
        decreases pending
      {
        var k :| k in pending;
        var r := items[k];
        assert Names(rs + [r]) == Names(rs) + [k];
        rs := rs + [r];
        pending := pending - {k};
      }
    }

    /** `get_grade_by_name`: the item stored under `name`, if any. */
    method GetGradeByName(name: string) returns (r: Option<Record>)
      requires Valid()
      ensures r.None? <==> name !in items
      ensures r.Some? ==> r.value.name == name && items[name] == r.value
    {
      if name in items {
        r := Some(items[name]);
      } else {
        r := None;
      }
    }

    /**
     * `store_changed_grades(new_grades, old_grades)`: compares each new record
     * with the old record of its name, writes it over the stored item when they
     * differ, and returns the writes made.
     */
    method StoreChangedGrades(news: seq<Record>, olds: seq<Record>) returns (changed: seq<Write>)
      requires Valid()
      modifies this
      ensures Valid()
      ensures changed == StoreChanges(news, olds)
      ensures items == ApplyWrites(old(items), changed)
    {
      changed := [];
      var before := ByName(olds);
      for i := 0 to |news|
        invariant changed == Writes(news[..i], before)
        invariant items == ApplyWrites(old(items), changed)
        invariant Valid()
      {
        var grade := news[i];
        var name := grade.name;
        WritesStep(news, before, i);
        if Differs(Get(before, name), grade) {
          ApplyWritesSnoc(old(items), changed, (Get(before, name), grade));
          items := items[name := grade];
          changed := changed + [(Get(before, name), grade)];
        }
      }
      assert news[..|news|] == news;
    }
  }

  // ---------------------------------------------------------------------------
  // What a run writes

  /** One more new record adds its write, if any, at the end. */
  lemma WritesStep(news: seq<Record>, before: Dict<string, Record>, i: nat)
    requires i < |news|
    ensures Writes(news[..i + 1], before) == Writes(news[..i], before)
      + if Differs(Get(before, news[i].name), news[i]) then [(Get(before, news[i].name), news[i])] else []
  {
    assert news[..i + 1][..i] == news[..i];
  }

  /** Every write pairs a new record with the old record of its name, and the two differ. */
  lemma {:induction false} WritesSound(news: seq<Record>, before: Dict<string, Record>, w: Write)
    requires w in Writes(news, before)
    ensures w.1 in news && w.0 == Get(before, w.1.name) && Differs(w.0, w.1)
  {
    var n := |news| - 1;
    if w in Writes(news[..n], before) {
      WritesSound(news[..n], before, w);
    }
  }

  /** Every new record that differs from the old record of its name is written, duplicates included. */
  lemma {:induction false} WritesComplete(news: seq<Record>, before: Dict<string, Record>, i: nat)
    requires i < |news| && Differs(Get(before, news[i].name), news[i])
    ensures (Get(before, news[i].name), news[i]) in Writes(news, before)
  {
    var n := |news| - 1;
    if i < n {
      assert news[..n][i] == news[i];
      WritesComplete(news[..n], before, i);
    }
  }

  /** The writes follow the order of the new list. */
  lemma {:induction false} WritesOrder(news: seq<Record>, before: Dict<string, Record>)
    ensures IsSubsequence(Currents(Writes(news, before)), news)
  {
    if news != [] {
      var n := |news| - 1;
      var g := news[n];
      var ws := Writes(news[..n], before);
      WritesOrder(news[..n], before);
      if Differs(Get(before, g.name), g) {
        var r := ws + [(Get(before, g.name), g)];
        assert Writes(news, before) == r;
        assert Currents(r)[..|ws|] == Currents(ws);
      } else {
        assert Writes(news, before) == ws;
        SubsequenceExtend(Currents(ws), news[..n], g);
        assert news[..n] + [g] == news;
      }
    }
  }

  /** Nothing is written when every new record matches the old record of its name. */
  lemma {:induction false} NothingWritten(news: seq<Record>, before: Dict<string, Record>)
    requires forall i :: 0 <= i < |news| ==> !Differs(Get(before, news[i].name), news[i])
    ensures Writes(news, before) == []
  {
    if news != [] {
      var n := |news| - 1;
      assert forall i :: 0 <= i < n ==> news[..n][i] == news[i];
      NothingWritten(news[..n], before);
    }
  }

  // ---------------------------------------------------------------------------
  // The table after the writes

  /** The names written to, in order. */
  function WrittenNames(ws: seq<Write>): (ns: seq<string>)
    ensures |ns| == |ws|
    ensures forall i :: 0 <= i < |ws| ==> ns[i] == ws[i].1.name
  {
    seq(|ws|, i requires 0 <= i < |ws| => ws[i].1.name)
  }

  /** A name no write touches keeps its item, or stays absent. */
  lemma {:induction false} ApplyWritesFrame(items: map<string, Record>, ws: seq<Write>, k: string)
    requires k !in WrittenNames(ws)
    ensures k in ApplyWrites(items, ws) <==> k in items
    ensures k in items ==> ApplyWrites(items, ws)[k] == items[k]
  {
    if ws != [] {
      var n := |ws| - 1;
      assert WrittenNames(ws)[n] == ws[n].1.name;
      assert forall i :: 0 <= i < n ==> WrittenNames(ws[..n])[i] == WrittenNames(ws)[i];
      ApplyWritesFrame(items, ws[..n], k);
    }
  }

  /** `i` is the index of the last write to name `k`. */
  predicate LastWriteTo(ws: seq<Write>, k: string, i: int)
  {
    0 <= i < |ws| && ws[i].1.name == k && forall j :: i < j < |ws| ==> ws[j].1.name != k
  }

  /** A last write stays the last one when a write to another name follows. */
  lemma LastWriteToExtend(ws: seq<Write>, k: string, i: int)
    requires ws != [] && LastWriteTo(ws[..|ws| - 1], k, i) && ws[|ws| - 1].1.name != k
    ensures LastWriteTo(ws, k, i)
  {
    var n := |ws| - 1;
    assert ws[..n][i] == ws[i];
    forall j | i < j < |ws|
      ensures ws[j].1.name != k
    {
      if j < n {
        assert ws[..n][j] == ws[j];
      }
    }
  }

  /** A written name holds, in full, the record of the last write to it. */
  lemma {:induction false} ApplyWritesLast(items: map<string, Record>, ws: seq<Write>, k: string)
    requires k in WrittenNames(ws)
    ensures k in ApplyWrites(items, ws)
    ensures exists i :: LastWriteTo(ws, k, i) && ApplyWrites(items, ws)[k] == ws[i].1
  {
    var n := |ws| - 1;
    var prior := ApplyWrites(items, ws[..n]);
    assert ApplyWrites(items, ws) == prior[ws[n].1.name := ws[n].1];
    if ws[n].1.name == k {
      assert LastWriteTo(ws, k, n);
    } else {
      var i :| 0 <= i < |ws| && WrittenNames(ws)[i] == k;
      assert WrittenNames(ws[..n])[i] == k;
      ApplyWritesLast(items, ws[..n], k);
      var last :| LastWriteTo(ws[..n], k, last) && prior[k] == ws[..n][last].1;
      LastWriteToExtend(ws, k, last);
      assert ApplyWrites(items, ws)[k] == ws[last].1;
    }
  }

  /** Writes keep every item stored under its own name. */
  lemma {:induction false} ApplyWritesKeyed(items: map<string, Record>, ws: seq<Write>)
    requires KeyedByName(items)
    ensures KeyedByName(ApplyWrites(items, ws))
  {
    if ws != [] {
      ApplyWritesKeyed(items, ws[..|ws| - 1]);
    }
  }

  /** Applying one more write stores its record under its name. */
  lemma ApplyWritesSnoc(items: map<string, Record>, ws: seq<Write>, w: Write)
    ensures ApplyWrites(items, ws + [w]) == ApplyWrites(items, ws)[w.1.name := w.1]
  {
    assert (ws + [w])[..|ws|] == ws;
  }

  /**
   * With duplicate names in the new list, each copy is compared with the old
   * record; the last copy that differs from it is the one left in the table.
   */
  lemma {:induction false} LastDifferingCopyWins(items: map<string, Record>, news: seq<Record>, before: Dict<string, Record>, i: nat)
    requires i < |news| && Differs(Get(before, news[i].name), news[i])
    requires forall j :: i < j < |news| && news[j].name == news[i].name ==>
      !Differs(Get(before, news[j].name), news[j])
    ensures news[i].name in ApplyWrites(items, Writes(news, before))
    ensures ApplyWrites(items, Writes(news, before))[news[i].name] == news[i]
  {
    var n := |news| - 1;
    var g := news[n];
    var ws := Writes(news[..n], before);
    var w := (Get(before, g.name), g);
    WritesStep(news, before, n);
    assert news[..n + 1] == news;
    if i == n {
      ApplyWritesSnoc(items, ws, w);
    } else {
      assert news[..n][i] == news[i];
      assert forall j :: i < j < n ==> news[..n][j] == news[j];
      LastDifferingCopyWins(items, news[..n], before, i);
      if Differs(Get(before, g.name), g) {
        assert g.name != news[i].name;
        ApplyWritesSnoc(items, ws, w);
        assert Writes(news, before) == ws + [w];
      } else {
        assert Writes(news, before) == ws;
      }
    }
  }

  // ---------------------------------------------------------------------------
  // Running the store twice, and agreement with the notifier

  /** An exact listing of the table also reads it back. */
  lemma ListingReadsBack(items: map<string, Record>, rs: seq<Record>)
    requires Lists(items, rs)
    ensures ReadsBack(items, rs)
  {
    forall i | 0 <= i < |rs|
      ensures Same(items[rs[i].name], rs[i])
    {
      EqualIff(rs[i].scores, rs[i].scores);
    }
  }

  /**
   * Reading the table back and indexing it by name finds exactly the stored
   * names, each with a record equal to the stored one (identical for an exact listing).
   */
  lemma ListingByName(items: map<string, Record>, rs: seq<Record>, k: string)
    requires KeyedByName(items) && ReadsBack(items, rs)
    ensures Get(ByName(rs), k).None? <==> k !in items
    ensures k in items ==> Same(items[k], Get(ByName(rs), k).value)
    ensures Lists(items, rs) ==> Get(ByName(rs), k) == if k in items then Some(items[k]) else None
  {
    ByNameGet(rs, k);
    if k in items {
      var i :| 0 <= i < |rs| && rs[i] == Get(ByName(rs), k).value && rs[i].name == k
        && forall j :: i < j < |rs| ==> rs[j].name != k;
    }
  }

  /** With each subject named once, a new record that differs from its old one ends up stored. */
  lemma ChangedSubjectStored(items: map<string, Record>, news: seq<Record>, before: Dict<string, Record>, i: nat)
    requires Distinct(Names(news)) && i < |news|
    requires Differs(Get(before, news[i].name), news[i])
    ensures news[i].name in ApplyWrites(items, Writes(news, before))
    ensures ApplyWrites(items, Writes(news, before))[news[i].name] == news[i]
  {
    var ws := Writes(news, before);
    var g := news[i];
    WritesComplete(news, before, i);
    var k :| 0 <= k < |ws| && ws[k] == (Get(before, g.name), g);
    assert WrittenNames(ws)[k] == g.name;
    ApplyWritesLast(items, ws, g.name);
    var last :| LastWriteTo(ws, g.name, last) && ApplyWrites(items, ws)[g.name] == ws[last].1;
    WritesSound(news, before, ws[last]);
    var m :| 0 <= m < |news| && news[m] == ws[last].1;
    SameNameSameIndex(news, m, i);
  }

  /** With each subject named once, a subject whose new record matches its old one is not written to. */
  lemma UnchangedSubjectNotWritten(news: seq<Record>, before: Dict<string, Record>, i: nat)
    requires Distinct(Names(news)) && i < |news|
    requires !Differs(Get(before, news[i].name), news[i])
    ensures news[i].name !in WrittenNames(Writes(news, before))
  {
    var ws := Writes(news, before);
    forall j | 0 <= j < |ws| ensures ws[j].1.name != news[i].name {
      WritesSound(news, before, ws[j]);
      var m :| 0 <= m < |news| && news[m] == ws[j].1;
      SameNameSameIndex(news, m, i);
    }
  }

  /**
   * When the new list names each subject once and the old list reads back
   * the table, after the run every new record's subject holds a record equal to it.
   */
  lemma StoredAfterRun(items: map<string, Record>, news: seq<Record>, olds: seq<Record>, i: nat)
    requires KeyedByName(items) && ReadsBack(items, olds)
    requires Distinct(Names(news)) && i < |news|
    ensures news[i].name in ApplyWrites(items, StoreChanges(news, olds))
    ensures Same(ApplyWrites(items, StoreChanges(news, olds))[news[i].name], news[i])
  {
    var g := news[i];
    if Differs(Get(ByName(olds), g.name), g) {
      ChangedSubjectStored(items, news, ByName(olds), i);
      EqualIff(g.scores, g.scores);
    } else {
      ListingByName(items, olds, g.name);
      UnchangedSubjectNotWritten(news, ByName(olds), i);
      ApplyWritesFrame(items, StoreChanges(news, olds), g.name);
    }
  }

  /**
   * When the new list names each subject once and the old list reads back
   * the table, storing it and then storing it again against a fresh read of
   * the updated table writes nothing the second time.
   */
  lemma StoreIdempotent(items: map<string, Record>, news: seq<Record>, olds: seq<Record>, again: seq<Record>)
    requires KeyedByName(items) && ReadsBack(items, olds)
    requires Distinct(Names(news))
    requires ReadsBack(ApplyWrites(items, StoreChanges(news, olds)), again)
    ensures StoreChanges(news, again) == []
  {
    var after := ApplyWrites(items, StoreChanges(news, olds));
    ApplyWritesKeyed(items, StoreChanges(news, olds));
    forall i | 0 <= i < |news|
      ensures !Differs(Get(ByName(again), news[i].name), news[i])
    {
      StoredAfterRun(items, news, olds, i);
      ListingByName(after, again, news[i].name);
    }
    NothingWritten(news, ByName(again));
  }

  /** The `(old, new)` pairs of a list of reported changes. */
  function ChangePairs(cs: seq<Change>): (ws: seq<Write>)
    ensures |ws| == |cs|
    ensures forall i :: 0 <= i < |cs| ==> ws[i] == (cs[i].previous, cs[i].current)
  {
    seq(|cs|, i requires 0 <= i < |cs| => (cs[i].previous, cs[i].current))
  }

  /** One more change adds its pair at the end. */
  lemma ChangePairsSnoc(cs: seq<Change>, c: Change)
    ensures ChangePairs(cs + [c]) == ChangePairs(cs) + [(c.previous, c.current)]
  {
    assert forall i :: 0 <= i < |cs| ==> (cs + [c])[i] == cs[i];
  }

  /** The store's loop and the notifier's comprehension select the same records, whatever the names. */
  lemma {:induction false} WritesAreSelected(news: seq<Record>, before: Dict<string, Record>)
    ensures Writes(news, before) == ChangePairs(Select(NamePairs(news), before))
  {
    if news != [] {
      var n := |news| - 1;
      var g := news[n];
      var es := NamePairs(news);
      assert es[..n] == NamePairs(news[..n]);
      assert es[n] == (g.name, g);
      var cs := Select(es[..n], before);
      WritesAreSelected(news[..n], before);
      WritesStep(news, before, n);
      assert news[..n + 1] == news;
      if Differs(Get(before, g.name), g) {
        var c := Change(g.name, Get(before, g.name), g);
        assert Select(es, before) == cs + [c];
        ChangePairsSnoc(cs, c);
      } else {
        assert Select(es, before) == cs;
      }
    }
  }

  /**
   * When the new list names each subject once, the store writes exactly the
   * changes the notifier reports, in the same order and with the same old records.
   */
  lemma StoreMatchesNotifier(news: seq<Record>, olds: seq<Record>)
    requires Distinct(Names(news))
    ensures StoreChanges(news, olds) == ChangePairs(GradeChanges(olds, news))
    ensures WrittenNames(StoreChanges(news, olds)) == ChangeNames(GradeChanges(olds, news))
  {
    FromDistinctPairs(NamePairs(news));
    assert ByName(news) == NamePairs(news);
    WritesAreSelected(news, ByName(olds));
    var cs := GradeChanges(olds, news);
    var ws := StoreChanges(news, olds);
    assert ws == ChangePairs(cs);
    forall i | 0 <= i < |cs| ensures WrittenNames(ws)[i] == ChangeNames(cs)[i] {
      assert cs[i] in cs;
      SelectSound(NamePairs(news), ByName(olds), cs[i]);
    }
    assert WrittenNames(ws) == ChangeNames(cs);
  }
}
