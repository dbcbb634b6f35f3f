/** The duplicate-attendance diagnostic: tally one student's attendance rows
    per session and count the sessions that have more than one row. The
    tally object is a sequence of entries in key-insertion order, which is
    the order a JavaScript object with non-numeric keys enumerates them. */
module Dupes {
  import opened Common
  import opened Records

  datatype Entry = Entry(sid: SessionId, count: nat)

  /** Number of rows that belong to session `sid`. */
  function Occurrences(rows: seq<AttendanceRow>, sid: SessionId): nat {
    if |rows| == 0 then 0
    else Occurrences(rows[..|rows| - 1], sid) + (if rows[|rows| - 1].session == sid then 1 else 0)
  }

  predicate DistinctKeys(entries: seq<Entry>) {
    forall i, j :: 0 <= i < j < |entries| ==> entries[i].sid != entries[j].sid
  }

  predicate HasKey(entries: seq<Entry>, sid: SessionId) {
    exists i :: 0 <= i < |entries| && entries[i].sid == sid
  }

  /** The tally of a session, zero when it has no entry yet. */
  function Lookup(entries: seq<Entry>, sid: SessionId): nat {
    if |entries| == 0 then 0
    else if entries[0].sid == sid then entries[0].count
    else Lookup(entries[1..], sid)
  }

  /** Counting one more row of a session: an existing key is updated in
      place, a new key goes to the end with count one. */
  function Bump(entries: seq<Entry>, sid: SessionId): seq<Entry> {
    if |entries| == 0 then [Entry(sid, 1)]
    else if entries[0].sid == sid then [Entry(sid, entries[0].count + 1)] + entries[1..]
    else [entries[0]] + Bump(entries[1..], sid)
  }

  function Total(entries: seq<Entry>): nat {
    if |entries| == 0 then 0 else entries[0].count + Total(entries[1..])
  }

  /** What a bump does: the key's count goes up by one, every other count is
      kept, keys stay distinct, and the grand total goes up by one. */
  lemma BumpEffect(entries: seq<Entry>, sid: SessionId)
    requires DistinctKeys(entries)
    ensures DistinctKeys(Bump(entries, sid))
    ensures forall x :: Lookup(Bump(entries, sid), x) == Lookup(entries, x) + (if x == sid then 1 else 0)
    ensures forall x :: HasKey(Bump(entries, sid), x) <==> HasKey(entries, x) || x == sid
    ensures forall e :: e in Bump(entries, sid) ==> e.count >= 1 || e in entries
    ensures Total(Bump(entries, sid)) == Total(entries) + 1
  {
    forall x ensures Lookup(Bump(entries, sid), x) == Lookup(entries, x) + (if x == sid then 1 else 0) {
      BumpLookup(entries, sid, x);
    }
    forall x ensures HasKey(Bump(entries, sid), x) <==> HasKey(entries, x) || x == sid {
      BumpKeys(entries, sid, x);
    }
    BumpDistinct(entries, sid);
    BumpCounts(entries, sid);
    BumpTotal(entries, sid);
  }

  /** Looking past the first entry. */
  lemma HasKeyCons(entries: seq<Entry>, x: SessionId)
    requires |entries| > 0
    ensures HasKey(entries, x) <==> entries[0].sid == x || HasKey(entries[1..], x)
  {
    if HasKey(entries, x) && entries[0].sid != x {
      var i :| 0 <= i < |entries| && entries[i].sid == x;
      assert entries[1..][i - 1].sid == x;
    }
    if HasKey(entries[1..], x) {
      var i :| 0 <= i < |entries| - 1 && entries[1..][i].sid == x;
      assert entries[i + 1].sid == x;
    }
  }

  /** Distinct keys, one entry at a time. */
  lemma DistinctCons(entries: seq<Entry>)
    requires |entries| > 0
    ensures DistinctKeys(entries) <==> !HasKey(entries[1..], entries[0].sid) && DistinctKeys(entries[1..])
  {
    var tail := entries[1..];
    if DistinctKeys(entries) {
      forall i, j | 0 <= i < j < |tail| ensures tail[i].sid != tail[j].sid {
        assert tail[i] == entries[i + 1] && tail[j] == entries[j + 1];
      }
      forall k | 0 <= k < |tail| ensures tail[k].sid != entries[0].sid {
        assert tail[k] == entries[k + 1];
      }
    }
    if !HasKey(tail, entries[0].sid) && DistinctKeys(tail) {
      forall i, j | 0 <= i < j < |entries| ensures entries[i].sid != entries[j].sid {
        assert entries[j] == tail[j - 1];
        if i > 0 {
          assert entries[i] == tail[i - 1];
        }
      }
    }
  }

  lemma {:induction false} BumpLookup(entries: seq<Entry>, sid: SessionId, x: SessionId)
    ensures Lookup(Bump(entries, sid), x) == Lookup(entries, x) + (if x == sid then 1 else 0)
  {
    if |entries| > 0 && entries[0].sid != sid {
      BumpLookup(entries[1..], sid, x);
      assert Bump(entries, sid)[1..] == Bump(entries[1..], sid);
    }
  }

  lemma {:induction false} BumpKeys(entries: seq<Entry>, sid: SessionId, x: SessionId)
    ensures HasKey(Bump(entries, sid), x) <==> HasKey(entries, x) || x == sid
  {
    var b := Bump(entries, sid);
    if |entries| == 0 {
      assert b[0].sid == sid;
    } else {
      HasKeyCons(entries, x);
      HasKeyCons(b, x);
      if entries[0].sid == sid {
        assert b[1..] == entries[1..];
      } else {
        assert b[1..] == Bump(entries[1..], sid);
        BumpKeys(entries[1..], sid, x);
      }
    }
  }

  lemma {:induction false} BumpDistinct(entries: seq<Entry>, sid: SessionId)
    requires DistinctKeys(entries)
    ensures DistinctKeys(Bump(entries, sid))
  {
    var b := Bump(entries, sid);
    if |entries| > 0 {
      DistinctCons(entries);
      DistinctCons(b);
      if entries[0].sid == sid {
        assert b[1..] == entries[1..];
      } else {
        assert b[1..] == Bump(entries[1..], sid);
        BumpDistinct(entries[1..], sid);
        BumpKeys(entries[1..], sid, entries[0].sid);
      }
    }
  }

  lemma {:induction false} BumpCounts(entries: seq<Entry>, sid: SessionId)
    ensures forall e :: e in Bump(entries, sid) ==> e.count >= 1 || e in entries
  {
    if |entries| > 0 && entries[0].sid != sid {
      BumpCounts(entries[1..], sid);
      assert Bump(entries, sid) == [entries[0]] + Bump(entries[1..], sid);
    }
  }

  lemma {:induction false} BumpTotal(entries: seq<Entry>, sid: SessionId)
    ensures Total(Bump(entries, sid)) == Total(entries) + 1
  {
    if |entries| > 0 {
      if entries[0].sid == sid {
        assert Bump(entries, sid)[1..] == entries[1..];
      } else {
        BumpTotal(entries[1..], sid);
        assert Bump(entries, sid)[1..] == Bump(entries[1..], sid);
      }
    }
  }

  /** The tally: one pass over the rows, bumping each row's session. */
  method TallySessions(rows: seq<AttendanceRow>) returns (counts: seq<Entry>)
    ensures DistinctKeys(counts)
    ensures forall sid :: Lookup(counts, sid) == Occurrences(rows, sid)
    ensures forall sid :: HasKey(counts, sid) <==> exists i :: 0 <= i < |rows| && rows[i].session == sid
    ensures forall e :: e in counts ==> e.count >= 1
    ensures Total(counts) == |rows|
  {
    counts := [];
    var n := 0;
    while n < |rows|
      invariant n <= |rows|
      invariant DistinctKeys(counts)
      invariant forall sid :: Lookup(counts, sid) == Occurrences(rows[..n], sid)
      invariant forall sid :: HasKey(counts, sid) <==> exists i :: 0 <= i < n && rows[i].session == sid
      invariant forall e :: e in counts ==> e.count >= 1
      invariant Total(counts) == n
    {
      BumpEffect(counts, rows[n].session);
      counts := Bump(counts, rows[n].session);
      assert rows[..n + 1][..n] == rows[..n];
      n := n + 1;
    }
    assert rows[..n] == rows;
  }

  /** Keys of the entries whose count is above one. */
  function Repeated(entries: seq<Entry>): set<SessionId> {
    set i | 0 <= i < |entries| && entries[i].count > 1 :: entries[i].sid
  }

  /** The duplicate count: the number of entries with a count above one. */
  method CountDuplicates(counts: seq<Entry>) returns (duplicates: nat)
    requires DistinctKeys(counts)
    ensures duplicates == |Repeated(counts)|
  {
    duplicates := 0;
    var n := 0;
    while n < |counts|
      invariant n <= |counts|
      invariant duplicates == |Repeated(counts[..n])|
    {
      RepeatedStep(counts, n);
      if counts[n].count > 1 {
        duplicates := duplicates + 1;
      }
      n := n + 1;
    }
    assert counts[..n] == counts;
  }

  /** Extending the scanned prefix by one entry adds its key to the repeated
      set exactly when its count is above one, and the key is new. */
  lemma RepeatedStep(counts: seq<Entry>, n: nat)
    requires DistinctKeys(counts) && n < |counts|
    ensures counts[n].count > 1 ==>
      Repeated(counts[..n + 1]) == Repeated(counts[..n]) + {counts[n].sid} &&
      counts[n].sid !in Repeated(counts[..n])
    ensures counts[n].count <= 1 ==> Repeated(counts[..n + 1]) == Repeated(counts[..n])
  {
    var prefix := counts[..n];
    var next := counts[..n + 1];
    forall x ensures x in Repeated(next) <==> x in Repeated(prefix) || (x == counts[n].sid && counts[n].count > 1) {
      if x in Repeated(next) {
        var i :| 0 <= i < |next| && next[i].count > 1 && next[i].sid == x;
        if i < n {
          assert prefix[i] == next[i];
        }
      }
      if x in Repeated(prefix) {
        var i :| 0 <= i < |prefix| && prefix[i].count > 1 && prefix[i].sid == x;
        assert next[i] == prefix[i];
      }
      if x == counts[n].sid && counts[n].count > 1 {
        assert next[n] == counts[n];
      }
    }
    forall i | 0 <= i < |prefix| ensures prefix[i].sid != counts[n].sid {
      assert prefix[i] == counts[i];
    }
  }

  /** The sessions that have more than one of the rows. */
  function RepeatedSessions(rows: seq<AttendanceRow>): set<SessionId> {
    set i | 0 <= i < |rows| && Occurrences(rows, rows[i].session) > 1 :: rows[i].session
  }

  /** The whole diagnostic: the reported count is the number of sessions with
      more than one row, and it is zero exactly when no two rows share a
      session. */
  method CheckDupes(rows: seq<AttendanceRow>) returns (counts: seq<Entry>, duplicates: nat)
    ensures forall sid :: Lookup(counts, sid) == Occurrences(rows, sid)
    ensures duplicates == |RepeatedSessions(rows)|
    ensures duplicates == 0 <==> forall i, j :: 0 <= i < j < |rows| ==> rows[i].session != rows[j].session
  {
    counts := TallySessions(rows);
    duplicates := CountDuplicates(counts);
    RepeatedAgree(rows, counts);
    RepeatedEmptyIffDistinct(rows);
  }

  /** No repeated session exactly when no two rows share a session. */
  lemma RepeatedEmptyIffDistinct(rows: seq<AttendanceRow>)
    ensures RepeatedSessions(rows) == {} <==> forall i, j :: 0 <= i < j < |rows| ==> rows[i].session != rows[j].session
  {
    if RepeatedSessions(rows) != {} {
      var x :| x in RepeatedSessions(rows);
      var i :| 0 <= i < |rows| && Occurrences(rows, rows[i].session) > 1 && rows[i].session == x;
      RepeatedMeansTwoRows(rows, x);
    } else {
      forall i, j | 0 <= i < j < |rows| ensures rows[i].session != rows[j].session {
        SharedSessionIsRepeated(rows, i, j);
      }
    }
  }

  lemma SharedSessionIsRepeated(rows: seq<AttendanceRow>, i: nat, j: nat)
    requires i < j < |rows|
    ensures rows[i].session == rows[j].session ==> rows[i].session in RepeatedSessions(rows)
  {
    if rows[i].session == rows[j].session {
      TwoRowsMeanRepeated(rows, i, j);
    }
  }

  /** The entries' repeated keys are the rows' repeated sessions. */
  lemma RepeatedAgree(rows: seq<AttendanceRow>, counts: seq<Entry>)
    requires forall sid :: Lookup(counts, sid) == Occurrences(rows, sid)
    requires forall sid :: HasKey(counts, sid) <==> exists i :: 0 <= i < |rows| && rows[i].session == sid
    requires DistinctKeys(counts)
    ensures Repeated(counts) == RepeatedSessions(rows)
  {
    forall x ensures x in Repeated(counts) <==> x in RepeatedSessions(rows) {
      if x in Repeated(counts) {
        var i :| 0 <= i < |counts| && counts[i].count > 1 && counts[i].sid == x;
        LookupFindsEntry(counts, i);
        assert HasKey(counts, x);
        var k :| 0 <= k < |rows| && rows[k].session == x;
      }
      if x in RepeatedSessions(rows) {
        var k :| 0 <= k < |rows| && Occurrences(rows, rows[k].session) > 1 && rows[k].session == x;
        assert HasKey(counts, x);
        var i :| 0 <= i < |counts| && counts[i].sid == x;
        LookupFindsEntry(counts, i);
      }
    }
  }

  /** With distinct keys, looking up an entry's key yields its count. */
  lemma {:induction false} LookupFindsEntry(entries: seq<Entry>, i: nat)
    requires DistinctKeys(entries) && i < |entries|
    ensures Lookup(entries, entries[i].sid) == entries[i].count
  {
    if i > 0 {
      var tail := entries[1..];
      assert DistinctKeys(tail) by {
        forall a, b | 0 <= a < b < |tail| ensures tail[a].sid != tail[b].sid {
          assert tail[a] == entries[a + 1] && tail[b] == entries[b + 1];
        }
      }
      assert tail[i - 1] == entries[i];
      LookupFindsEntry(tail, i - 1);
    }
  }

  /** Two rows of the same session make it occur more than once. */
  lemma {:induction false} TwoRowsMeanRepeated(rows: seq<AttendanceRow>, i: nat, j: nat)
    requires i < j < |rows| && rows[i].session == rows[j].session
    ensures Occurrences(rows, rows[i].session) > 1
  {
    var last := |rows| - 1;
    var init := rows[..last];
    if j == last {
      assert init[i] == rows[i];
      OccursOnce(init, i);
    } else {
      assert init[i] == rows[i] && init[j] == rows[j];
      TwoRowsMeanRepeated(init, i, j);
    }
  }

  lemma {:induction false} OccursOnce(rows: seq<AttendanceRow>, i: nat)
    requires i < |rows|
    ensures Occurrences(rows, rows[i].session) >= 1
  {
    var last := |rows| - 1;
    if i < last {
      assert rows[..last][i] == rows[i];
      OccursOnce(rows[..last], i);
    }
  }

  /** A session that occurs more than once has two distinct rows. */
  lemma {:induction false} RepeatedMeansTwoRows(rows: seq<AttendanceRow>, sid: SessionId)
    requires Occurrences(rows, sid) > 1
    ensures exists i, j :: 0 <= i < j < |rows| && rows[i].session == sid && rows[j].session == sid
  {
    var last := |rows| - 1;
    var init := rows[..last];
    if rows[last].session == sid {
      var i := OccurrenceIndex(init, sid);
      assert rows[i] == init[i];
      assert rows[i].session == sid && rows[last].session == sid;
    } else {
      RepeatedMeansTwoRows(init, sid);
      var i, j :| 0 <= i < j < |init| && init[i].session == sid && init[j].session == sid;
      assert rows[i] == init[i] && rows[j] == init[j];
    }
  }

  lemma {:induction false} OccurrenceIndex(rows: seq<AttendanceRow>, sid: SessionId) returns (i: nat)
    requires Occurrences(rows, sid) >= 1
    ensures i < |rows| && rows[i].session == sid
  {
    var last := |rows| - 1;
    if rows[last].session == sid {
      i := last;
    } else {
      i := OccurrenceIndex(rows[..last], sid);
      assert rows[..last][i] == rows[i];
    }
  }
}
