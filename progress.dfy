/** The progress report (check_progress.py): counts the records that are
    done and those that still need translation, and estimates the runs
    left. */
module Progress {
  import opened Records

  predicate Completed(r: Record) {
    !r.NeedsTranslation()
  }

  predicate Pending(r: Record) {
    r.NeedsTranslation()
  }

  /** A record without the flag is pending; only an explicit false is done. */
  lemma MissingFlagIsPending(r: Record)
    ensures r.flag == None ==> Pending(r)
    ensures Completed(r) <==> r.flag == Some(false)
  {
  }

  /** The counters after the inner loop has seen the first `a` records of
      one more category. */
  method CountCategory(items: Category, total0: nat, completed0: nat, pending0: nat)
    returns (total: nat, completed: nat, pending: nat)
    ensures total == total0 + |items|
    ensures completed == completed0 + CountIn(items, Completed)
    ensures pending == pending0 + CountIn(items, Pending)
  {
    total, completed, pending := total0, completed0, pending0;
    for a := 0 to |items|
      invariant total == total0 + a
      invariant completed == completed0 + CountIn(items[..a], Completed)
      invariant pending == pending0 + CountIn(items[..a], Pending)
    {
      assert items[..a + 1][..a] == items[..a];
      total := total + 1;
      if !items[a].1.NeedsTranslation() {
        completed := completed + 1;
      } else {
        pending := pending + 1;
      }
    }
    assert items[..|items|] == items;
  }

  /** The counting loop of `check_progress`: every record of every category
      is counted once, as completed or as pending. */
  method CheckProgress(data: RecordSet) returns (total: nat, completed: nat, pending: nat)
    ensures total == Size(data)
    ensures completed == CountWhere(data, Completed)
    ensures pending == CountWhere(data, Pending)
    ensures completed + pending == total
  {
    total, completed, pending := 0, 0, 0;
    for i := 0 to |data|
      invariant total == Size(data[..i])
      invariant completed == CountWhere(data[..i], Completed)
      invariant pending == CountWhere(data[..i], Pending)
    {
      assert data[..i + 1][..i] == data[..i];
      total, completed, pending := CountCategory(data[i].1, total, completed, pending);
    }
    assert data[..|data|] == data;
    PendingComplement(data);
  }

  /** Completed and pending partition the record set. */
  lemma PendingComplement(data: RecordSet)
    ensures CountWhere(data, Completed) + CountWhere(data, Pending) == Size(data)
  {
    forall i, a | 0 <= i < |data| && 0 <= a < |data[i].1|
      ensures (r => Completed(r) != Pending(r))(data[i].1[a].1)
    {
    }
    CountPartition(data, Completed, Pending);
  }

  /** Nothing is pending exactly when every record is done. */
  lemma {:induction false} NonePendingIff(data: RecordSet)
    ensures CountWhere(data, Pending) == 0 <==> Every(data, Completed)
  {
    if data != [] {
      var init := data[..|data| - 1];
      var last := data[|data| - 1].1;
      NonePendingIff(init);
      NonePendingInIff(last);
      if Every(data, Completed) {
        forall i, a | 0 <= i < |init| && 0 <= a < |init[i].1| ensures Completed(init[i].1[a].1) {
          assert init[i] == data[i];
        }
        forall a | 0 <= a < |last| ensures Completed(last[a].1) {
          assert data[|data| - 1].1[a] == last[a];
        }
      }
      if CountWhere(data, Pending) == 0 {
        forall i, a | 0 <= i < |data| && 0 <= a < |data[i].1| ensures Completed(data[i].1[a].1) {
          if i < |init| {
            assert init[i] == data[i];
            assert Completed(init[i].1[a].1);
          } else {
            assert Completed(last[a].1);
          }
        }
      }
    }
  }

  lemma {:induction false} NonePendingInIff(items: Category)
    ensures CountIn(items, Pending) == 0 <==> forall a :: 0 <= a < |items| ==> Completed(items[a].1)
  {
    if items != [] {
      var init := items[..|items| - 1];
      NonePendingInIff(init);
      if forall a :: 0 <= a < |items| ==> Completed(items[a].1) {
        forall a | 0 <= a < |init| ensures Completed(init[a].1) {
          assert init[a] == items[a];
        }
      }
      if CountIn(items, Pending) == 0 {
        forall a | 0 <= a < |items| ensures Completed(items[a].1) {
          if a < |init| {
            assert init[a] == items[a];
          }
        }
      }
    }
  }

  /** `remaining_runs = needs_translation // 50 + 1`. */
  function RemainingRuns(pending: nat): nat {
    pending / 50 + 1
  }

  /** The estimate always leaves room for every pending record at 50 per
      run, and never by a whole spare run more than that: it is the ceiling
      of pending / 50 when 50 does not divide the count, and one more than
      the ceiling when it does (50 pending gives 2). */
  lemma RemainingRunsBounds(pending: nat)
    ensures 50 * (RemainingRuns(pending) - 1) <= pending < 50 * RemainingRuns(pending)
    ensures pending % 50 != 0 ==> RemainingRuns(pending) == (pending + 49) / 50
    ensures pending % 50 == 0 ==> RemainingRuns(pending) == (pending + 49) / 50 + 1
  {
  }

  /** What the report ends with. */
  datatype Outcome = AllDone | RunsLeft(runs: nat)

  function Conclude(pending: nat): Outcome {
    if pending == 0 then AllDone else RunsLeft(RemainingRuns(pending))
  }

  /** The report says all is done exactly when every record is done;
      otherwise it names at least one run. */
  lemma ConcludeIff(data: RecordSet)
    ensures Conclude(CountWhere(data, Pending)) == AllDone <==> Every(data, Completed)
    ensures Conclude(CountWhere(data, Pending)).RunsLeft? ==> Conclude(CountWhere(data, Pending)).runs >= 1
  {
    NonePendingIff(data);
  }
}
