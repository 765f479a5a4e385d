/** `load_new_ml_results`: admitting entries of the face and voice result logs past a high-water mark. */
module ResultLog {
  import opened Wrappers

  /** One entry of a result log; the timestamp is the entry's "Timestamp" as seconds. */
  datatype Entry = Entry(
    timestamp: int,
    prediction: string,
    accuracy: real,
    status: string,
    note: string)

  /** The parsed "results.json": its face and voice sub-logs. */
  datatype ResultsFile = ResultsFile(face: seq<Entry>, voice: seq<Entry>)

  /** An entry is admitted when no mark is set yet or when it is strictly later than the mark. */
  predicate IsNewer(e: Entry, mark: Option<int>)
  {
    mark.None? || e.timestamp > mark.value
  }

  /** The entries of `entries` past `mark`, in their order in the log. */
  function NewerThan(entries: seq<Entry>, mark: Option<int>): (r: seq<Entry>)
    ensures |r| <= |entries|
  {
    if entries == [] then []
    else (if IsNewer(entries[0], mark) then [entries[0]] else []) + NewerThan(entries[1..], mark)
  }

  /** Exactly the entries past the mark are admitted. */
  lemma {:induction false} NewerThanMembers(entries: seq<Entry>, mark: Option<int>)
    ensures forall e :: e in NewerThan(entries, mark) <==> e in entries && IsNewer(e, mark)
    decreases |entries|
  {
    if entries != [] {
      NewerThanMembers(entries[1..], mark);
      assert entries == [entries[0]] + entries[1..];
    }
  }

  /** The mark after a pass: the timestamp of the last admitted entry, or the old mark when none was admitted. */
  function NextMark(entries: seq<Entry>, mark: Option<int>): (r: Option<int>)
    ensures r.None? <==> mark.None? && NewerThan(entries, mark) == []
  {
    var admitted := NewerThan(entries, mark);
    if admitted == [] then mark else Some(admitted[|admitted| - 1].timestamp)
  }

  /** Timestamps never decrease along the log, as an append-only log written by one clock has them. */
  predicate Sorted(entries: seq<Entry>)
  {
    forall i, j :: 0 <= i < j < |entries| ==> entries[i].timestamp <= entries[j].timestamp
  }

  /** Filtering a concatenation filters each part, keeping the order. */
  lemma {:induction false} NewerThanConcat(a: seq<Entry>, b: seq<Entry>, mark: Option<int>)
    ensures NewerThan(a + b, mark) == NewerThan(a, mark) + NewerThan(b, mark)
    decreases |a|
  {
    if a == [] {
      assert a + b == b;
    } else {
      var head := if IsNewer(a[0], mark) then [a[0]] else [];
      assert (a + b)[0] == a[0] && (a + b)[1..] == a[1..] + b;
      assert NewerThan(a + b, mark) == head + NewerThan(a[1..] + b, mark);
      NewerThanConcat(a[1..], b, mark);
      assert NewerThan(a, mark) == head + NewerThan(a[1..], mark);
      ConcatAssoc(head, NewerThan(a[1..], mark), NewerThan(b, mark));
    }
  }

  lemma ConcatAssoc(x: seq<Entry>, y: seq<Entry>, z: seq<Entry>)
    ensures x + (y + z) == (x + y) + z
  {
  }

  /** The loop of lines 170-173 (and 175-178): walk the sub-log, keeping entries past the mark. */
  method FilterNewer(entries: seq<Entry>, mark: Option<int>) returns (admitted: seq<Entry>)
    ensures admitted == NewerThan(entries, mark)
  {
    admitted := [];
    for i := 0 to |entries|
      invariant admitted == NewerThan(entries[..i], mark)
    {
      assert entries[..i + 1] == entries[..i] + [entries[i]];
      NewerThanConcat(entries[..i], [entries[i]], mark);
      if IsNewer(entries[i], mark) {
        admitted := admitted + [entries[i]];
      }
    }
    assert entries[..|entries|] == entries;
  }

  /** An entry admitted past a mark is strictly later than it, so the mark only moves forward. */
  lemma MarkAdvances(entries: seq<Entry>, mark: Option<int>)
    ensures mark.Some? ==> NextMark(entries, mark).Some? && NextMark(entries, mark).value >= mark.value
    ensures mark.Some? && NewerThan(entries, mark) != [] ==> NextMark(entries, mark).value > mark.value
  {
    var admitted := NewerThan(entries, mark);
    if admitted != [] {
      NewerThanMembers(entries, mark);
      assert admitted[|admitted| - 1] in admitted;
    }
  }

  /** On a sorted log no entry is later than the last one. */
  lemma SortedBoundedByLast(entries: seq<Entry>)
    requires Sorted(entries) && entries != []
    ensures forall e :: e in entries ==> e.timestamp <= entries[|entries| - 1].timestamp
  {
    forall e | e in entries
      ensures e.timestamp <= entries[|entries| - 1].timestamp
    {
      var i :| 0 <= i < |entries| && entries[i] == e;
    }
  }

  /** On a sorted log the last entry is admitted whenever any entry is. */
  lemma LastAdmitted(entries: seq<Entry>, mark: Option<int>)
    requires Sorted(entries) && NewerThan(entries, mark) != []
    ensures IsNewer(entries[|entries| - 1], mark)
  {
    if !IsNewer(entries[|entries| - 1], mark) {
      SortedBoundedByLast(entries);
      NoneNewer(entries, mark);
    }
  }

  /** When the last entry is admitted, the new mark is its timestamp. */
  lemma NextMarkAtLast(entries: seq<Entry>, mark: Option<int>)
    requires entries != [] && IsNewer(entries[|entries| - 1], mark)
    ensures NextMark(entries, mark) == Some(entries[|entries| - 1].timestamp)
  {
    var n := |entries|;
    var front, last := entries[..n - 1], entries[n - 1];
    assert entries == front + [last];
    NewerThanConcat(front, [last], mark);
    assert NewerThan([last], mark) == [last];
  }

  /** On a sorted log with something admitted, the new mark is the last entry's timestamp and bounds every entry. */
  lemma NextMarkBoundsAll(entries: seq<Entry>, mark: Option<int>)
    requires Sorted(entries) && NewerThan(entries, mark) != []
    ensures NextMark(entries, mark) == Some(entries[|entries| - 1].timestamp)
    ensures forall e :: e in entries ==> e.timestamp <= NextMark(entries, mark).value
  {
    LastAdmitted(entries, mark);
    NextMarkAtLast(entries, mark);
    SortedBoundedByLast(entries);
  }

  /** Nothing is admitted from a log whose entries are all at or before the mark. */
  lemma {:induction false} NoneNewer(entries: seq<Entry>, mark: Option<int>)
    requires forall e :: e in entries ==> !IsNewer(e, mark)
    ensures NewerThan(entries, mark) == []
    decreases |entries|
  {
    if entries != [] {
      assert entries[0] in entries;
      NoneNewer(entries[1..], mark);
    }
  }

  /** A second pass over the same sorted sub-log admits nothing and leaves the mark where it is. */
  lemma BackfillIdempotent(entries: seq<Entry>, mark: Option<int>)
    requires Sorted(entries)
    ensures NewerThan(entries, NextMark(entries, mark)) == []
    ensures NextMark(entries, NextMark(entries, mark)) == NextMark(entries, mark)
  {
    var again := NewerThan(entries, NextMark(entries, mark));
    if NewerThan(entries, mark) != [] {
      NextMarkBoundsAll(entries, mark);
      NoneNewer(entries, NextMark(entries, mark));
    }
  }

  /** After a pass over a sorted sub-log, a later pass over the grown log admits only from what was appended. */
  lemma CatchUpAdmitsOnlyAppended(seen: seq<Entry>, appended: seq<Entry>, mark: Option<int>)
    requires Sorted(seen)
    ensures NewerThan(seen + appended, NextMark(seen, mark)) == NewerThan(appended, NextMark(seen, mark))
  {
    BackfillIdempotent(seen, mark);
    NewerThanConcat(seen, appended, NextMark(seen, mark));
  }

  /** A later mark admits fewer entries: every entry past the later mark is past the earlier one. */
  lemma {:induction false} LaterMarkAdmitsSubsequence(entries: seq<Entry>, m: int, m': int)
    requires m <= m'
    ensures |NewerThan(entries, Some(m'))| <= |NewerThan(entries, Some(m))|
    ensures forall e :: e in NewerThan(entries, Some(m')) ==> e in NewerThan(entries, Some(m))
    decreases |entries|
  {
    if entries != [] {
      LaterMarkAdmitsSubsequence(entries[1..], m, m');
    }
  }

  /** Results are stamped to the second and admitted only when strictly later than the mark: a result
      stamped in the same second as the last one admitted is never admitted, although both would have
      been had they arrived in the same pass. */
  lemma SameSecondResultSkipped(a: Entry, b: Entry, mark: Option<int>)
    requires IsNewer(a, mark) && b.timestamp == a.timestamp
    ensures NewerThan([a, b], mark) == [a, b]
    ensures NewerThan([a, b], NextMark([a], mark)) == []
  {
    assert [a, b][1..] == [b];
  }

  /** On a log whose timestamps go backwards the mark is the last admitted timestamp, not the
      largest, so the next pass admits an earlier entry again. */
  lemma UnsortedLogReadmits(a: Entry, b: Entry)
    requires b.timestamp < a.timestamp
    ensures NextMark([a, b], None) == Some(b.timestamp)
    ensures NewerThan([a, b], NextMark([a, b], None)) == [a]
  {
    assert [a, b][1..] == [b] && [b][1..] == [];
    assert NewerThan([a, b], None) == [a, b];
  }
}
