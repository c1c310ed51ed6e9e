/** The meaning of `fetch_notes`: the public and home notes above the cursor,
    ascending by id, at most BatchLimit of them. */
module Query {
  import opened Results
  import opened Ids
  import opened Notes

  const BatchLimit: nat := 100000

  /** The visibility condition of the query. */
  predicate Qualifies(r: Row) {
    r.visibility == Public || r.visibility == Home
  }

  /** A row the query can return for cursor `c`. */
  predicate Candidate(r: Row, c: Cursor) {
    Qualifies(r) && Above(r.id, c)
  }

  /** `id` is the table's primary key. */
  predicate UniqueIds(db: seq<Row>) {
    forall r, s :: r in db && s in db && r.id == s.id ==> r == s
  }

  /** Number of rows of `db` the query can return for `c`. */
  function CountAbove(db: seq<Row>, c: Cursor): nat {
    if db == [] then 0
    else (if Candidate(db[0], c) then 1 else 0) + CountAbove(db[1..], c)
  }

  /** Moving the cursor up to a candidate's id loses that candidate and
      gains nothing. */
  lemma {:induction false} CountShrinks(db: seq<Row>, c: Cursor, m: Row)
    requires Candidate(m, c)
    ensures CountAbove(db, At(m.id)) + (if m in db then 1 else 0) <= CountAbove(db, c)
  {
    if db != [] {
      CountShrinks(db[1..], c, m);
      if Candidate(db[0], At(m.id)) {
        AboveTransitive(db[0].id, m.id, c);
      }
      if db[0] == m {
        BelowIrreflexive(m.id);
      }
    }
  }

  /** The candidate with the smallest id, if there is one (the last such
      row of `db` on a tie, which unique ids rule out). */
  function Lowest(db: seq<Row>, c: Cursor): Option<Row> {
    if db == [] then None
    else
      var rest := Lowest(db[1..], c);
      if !Candidate(db[0], c) then rest
      else if rest.Some? && !Below(db[0].id, rest.value.id) then rest
      else Some(db[0])
  }

  lemma {:induction false} LowestSpec(db: seq<Row>, c: Cursor)
    ensures Lowest(db, c).None? <==> forall x :: x in db ==> !Candidate(x, c)
    ensures Lowest(db, c).Some? ==>
      var m := Lowest(db, c).value;
      && m in db && Candidate(m, c)
      && forall x :: x in db && Candidate(x, c) ==> !Below(x.id, m.id)
  {
    if db != [] {
      LowestSpec(db[1..], c);
      var rest := Lowest(db[1..], c);
      assert forall x :: x in db <==> x == db[0] || x in db[1..];
      if Candidate(db[0], c) && !(rest.Some? && !Below(db[0].id, rest.value.id)) {
        BelowIrreflexive(db[0].id);
        forall x | x in db[1..] && Candidate(x, c)
          ensures !Below(x.id, db[0].id)
        {
          if Below(x.id, db[0].id) {
            BelowTransitive(x.id, db[0].id, rest.value.id);
          }
        }
      }
    }
  }

  /** ORDER BY id ASC without LIMIT: every candidate, smallest id first. */
  function Pending(db: seq<Row>, c: Cursor): seq<Row>
    decreases CountAbove(db, c)
  {
    match Lowest(db, c)
    case None => []
    case Some(m) =>
      LowestSpec(db, c);
      CountShrinks(db, c, m);
      [m] + Pending(db, At(m.id))
  }

  /** `fetch_notes(cursor, c)`. */
  function Fetch(db: seq<Row>, c: Cursor): (batch: seq<Row>)
    ensures |batch| <= BatchLimit
  {
    var p := Pending(db, c);
    if |p| <= BatchLimit then p else p[..BatchLimit]
  }

  // Properties of the ordered candidate list.

  lemma {:induction false} PendingSound(db: seq<Row>, c: Cursor)
    ensures forall i :: 0 <= i < |Pending(db, c)| ==>
      Pending(db, c)[i] in db && Candidate(Pending(db, c)[i], c)
    decreases CountAbove(db, c)
  {
    LowestSpec(db, c);
    match Lowest(db, c)
    case None =>
    case Some(m) =>
      CountShrinks(db, c, m);
      PendingSound(db, At(m.id));
      forall i | 1 <= i < |Pending(db, c)|
        ensures Candidate(Pending(db, c)[i], c)
      {
        assert Pending(db, c)[i] == Pending(db, At(m.id))[i - 1];
        AboveTransitive(Pending(db, c)[i].id, m.id, c);
      }
  }

  lemma {:induction false} PendingAscending(db: seq<Row>, c: Cursor)
    ensures forall i, j :: 0 <= i < j < |Pending(db, c)| ==>
      Below(Pending(db, c)[i].id, Pending(db, c)[j].id)
    decreases CountAbove(db, c)
  {
    LowestSpec(db, c);
    match Lowest(db, c)
    case None =>
    case Some(m) =>
      CountShrinks(db, c, m);
      var rest := Pending(db, At(m.id));
      PendingAscending(db, At(m.id));
      PendingSound(db, At(m.id));
      assert Pending(db, c) == [m] + rest;
      forall i, j | 0 <= i < j < |Pending(db, c)|
        ensures Below(Pending(db, c)[i].id, Pending(db, c)[j].id)
      {
        if i > 0 {
          assert Below(rest[i - 1].id, rest[j - 1].id);
        } else {
          assert Candidate(rest[j - 1], At(m.id));
        }
      }
  }

  lemma {:induction false} PendingComplete(db: seq<Row>, c: Cursor)
    requires UniqueIds(db)
    ensures forall r :: r in db && Candidate(r, c) ==> r in Pending(db, c)
    decreases CountAbove(db, c)
  {
    LowestSpec(db, c);
    match Lowest(db, c)
    case None =>
    case Some(m) =>
      CountShrinks(db, c, m);
      PendingComplete(db, At(m.id));
      forall r | r in db && Candidate(r, c) && r != m
        ensures r in Pending(db, c)
      {
        assert r.id != m.id;
        BelowTotal(r.id, m.id);
        assert Candidate(r, At(m.id));
        assert r in Pending(db, At(m.id));
      }
  }

  /** The first element of a strictly ascending list holding exactly the
      candidates is the lowest candidate. */
  lemma AscendingHead(db: seq<Row>, c: Cursor, s: seq<Row>)
    requires forall i, j :: 0 <= i < j < |s| ==> Below(s[i].id, s[j].id)
    requires forall r :: r in s <==> r in db && Candidate(r, c)
    requires Lowest(db, c).Some?
    ensures s != [] && s[0] == Lowest(db, c).value
  {
    LowestSpec(db, c);
    var m := Lowest(db, c).value;
    assert m in s;
    var j :| 0 <= j < |s| && s[j] == m;
    assert s[0] in db && Candidate(s[0], c);
    assert !Below(s[0].id, m.id);
    assert j == 0;
  }

  /** Its tail holds exactly the candidates above its head. */
  lemma AscendingTail(db: seq<Row>, c: Cursor, s: seq<Row>)
    requires s != []
    requires forall i, j :: 0 <= i < j < |s| ==> Below(s[i].id, s[j].id)
    requires forall r :: r in s <==> r in db && Candidate(r, c)
    ensures forall r :: r in s[1..] <==> r in db && Candidate(r, At(s[0].id))
  {
    assert s[0] in s;
    forall r
      ensures r in s[1..] <==> r in db && Candidate(r, At(s[0].id))
    {
      if r in s[1..] {
        var k :| 1 <= k < |s| && s[k] == r;
        assert Below(s[0].id, s[k].id);
      }
      if r in db && Candidate(r, At(s[0].id)) {
        AboveTransitive(r.id, s[0].id, c);
        BelowIrreflexive(s[0].id);
        assert r in s && r != s[0];
        assert s == [s[0]] + s[1..];
      }
    }
  }

  lemma HeadIsMember(s: seq<Row>)
    requires s != []
    ensures s[0] in s
  {
  }

  lemma NoMembersEmpty(s: seq<Row>)
    requires forall r :: r !in s
    ensures s == []
  {
    if s != [] {
      HeadIsMember(s);
      assert false;
    }
  }

  /** ORDER BY id ASC as a reference definition: any strictly ascending list
      holding exactly the candidates is Pending. */
  lemma {:induction false} PendingCharacterized(db: seq<Row>, c: Cursor, s: seq<Row>)
    requires forall i, j :: 0 <= i < j < |s| ==> Below(s[i].id, s[j].id)
    requires forall r :: r in s <==> r in db && Candidate(r, c)
    ensures s == Pending(db, c)
    decreases CountAbove(db, c)
  {
    LowestSpec(db, c);
    match Lowest(db, c)
    case None =>
      assert forall r :: r !in s;
      NoMembersEmpty(s);
    case Some(m) =>
      CountShrinks(db, c, m);
      AscendingHead(db, c, s);
      AscendingTail(db, c, s);
      PendingCharacterized(db, At(m.id), s[1..]);
      assert s == [m] + s[1..];
  }

  lemma PendingEmpty(db: seq<Row>, c: Cursor)
    ensures Pending(db, c) == [] <==> forall r :: r in db ==> !Candidate(r, c)
  {
    LowestSpec(db, c);
  }

  /** Where the next query starts once the first k candidates are done. */
  lemma {:induction false} PendingResume(db: seq<Row>, c: Cursor, k: nat)
    requires 0 < k <= |Pending(db, c)|
    ensures Pending(db, At(Pending(db, c)[k - 1].id)) == Pending(db, c)[k..]
    decreases k
  {
    var m := Lowest(db, c).value;
    var rest := Pending(db, At(m.id));
    assert Pending(db, c) == [m] + rest;
    if k > 1 {
      PendingResume(db, At(m.id), k - 1);
      assert rest[k - 2] == Pending(db, c)[k - 1];
      assert rest[k - 1..] == Pending(db, c)[k..];
    }
  }

  // Properties of one fetched batch.

  lemma FetchIsPrefix(db: seq<Row>, c: Cursor)
    ensures Fetch(db, c) == Pending(db, c)[..|Fetch(db, c)|]
    ensures |Fetch(db, c)| == BatchLimit || Fetch(db, c) == Pending(db, c)
  {
  }

  /** Only public and home rows above the cursor. */
  lemma FetchSound(db: seq<Row>, c: Cursor)
    ensures forall r :: r in Fetch(db, c) ==> r in db && Qualifies(r) && Above(r.id, c)
  {
    PendingSound(db, c);
  }

  /** Strictly ascending ids. */
  lemma FetchAscending(db: seq<Row>, c: Cursor)
    ensures forall i, j :: 0 <= i < j < |Fetch(db, c)| ==> Below(Fetch(db, c)[i].id, Fetch(db, c)[j].id)
  {
    PendingAscending(db, c);
  }

  /** A qualifying row above the cursor is missing from the batch only when
      the batch is full and the row lies beyond its last id. */
  lemma FetchComplete(db: seq<Row>, c: Cursor)
    requires UniqueIds(db)
    ensures forall r :: r in db && Candidate(r, c) ==>
      r in Fetch(db, c) ||
      (|Fetch(db, c)| == BatchLimit && Below(Fetch(db, c)[BatchLimit - 1].id, r.id))
  {
    var p := Pending(db, c);
    PendingComplete(db, c);
    PendingAscending(db, c);
    forall r | r in db && Candidate(r, c) && r !in Fetch(db, c)
      ensures |Fetch(db, c)| == BatchLimit && Below(Fetch(db, c)[BatchLimit - 1].id, r.id)
    {
      var j :| 0 <= j < |p| && p[j] == r;
      assert Below(p[BatchLimit - 1].id, p[j].id);
    }
  }

  /** The loop's stop signal: a fetch is empty exactly when no qualifying row
      lies above the cursor. */
  lemma FetchEmpty(db: seq<Row>, c: Cursor)
    ensures Fetch(db, c) == [] <==> forall r :: r in db ==> !Candidate(r, c)
  {
    PendingEmpty(db, c);
  }

  /** Moving the cursor to the last id of a non-empty batch strictly raises
      it and strictly shrinks the rows left to fetch. */
  lemma FetchAdvances(db: seq<Row>, c: Cursor)
    requires Fetch(db, c) != []
    ensures var last := Fetch(db, c)[|Fetch(db, c)| - 1].id;
      Above(last, c) && CountAbove(db, At(last)) < CountAbove(db, c)
  {
    var b := Fetch(db, c);
    PendingSound(db, c);
    assert b[|b| - 1] == Pending(db, c)[|b| - 1];
    CountShrinks(db, c, b[|b| - 1]);
  }

  /** A table whose rows all qualify and are already in id order, small
      enough for one batch, is fetched whole from the beginning, and the
      next fetch, from its last id, is empty. */
  lemma SortedTableFetchedWhole(db: seq<Row>)
    requires forall r :: r in db ==> Qualifies(r)
    requires forall i, j :: 0 <= i < j < |db| ==> Below(db[i].id, db[j].id)
    requires |db| <= BatchLimit
    ensures Fetch(db, Beginning) == db
    ensures db != [] ==> Fetch(db, At(db[|db| - 1].id)) == []
  {
    PendingCharacterized(db, Beginning, db);
    if db != [] {
      PendingResume(db, Beginning, |db|);
    }
  }
}
