/** Who is to blame for a crash: the crashes charged to one slot, and what a crash loop says about its runs. */
module CrashLog {
  import opened Seqs
  import H = HealthModel

  /** A boot: the slot it ran in, and whether the reset that started it was a crash. */
  datatype BootRecord = BootRecord(slot: string, crash: bool)

  /** How each completed run of `slot` ended, oldest first: the next boot's reset says so. */
  function Crashes(boots: seq<BootRecord>, slot: string): seq<bool> {
    if |boots| <= 1 then []
    else
      var n := |boots|;
      Crashes(boots[..n - 1], slot) + if boots[n - 2].slot == slot then [boots[n - 1].crash] else []
  }

  method CrashesWhileRunning(boots: seq<BootRecord>, slot: string) returns (out: seq<bool>)
    ensures out == Crashes(boots, slot)
  {
    out := [];
    var i := 1;
    while i < |boots|
      invariant 1 <= i
      invariant boots != [] ==> i <= |boots| && out == Crashes(boots[..i], slot)
      invariant boots == [] ==> out == []
    {
      assert boots[..i + 1][..i] == boots[..i];
      if boots[i - 1].slot == slot {
        out := out + [boots[i].crash];
      }
      i := i + 1;
    }
    assert boots != [] ==> boots[..|boots|] == boots;
  }

  /** Looking back from now: the last `n` completed runs of `slot` all ended in crashes. */
  predicate LastRunsCrashed(boots: seq<BootRecord>, slot: string, n: nat) {
    if n == 0 then true
    else if |boots| <= 1 then false
    else
      var last := |boots| - 1;
      if boots[last - 1].slot == slot then boots[last].crash && LastRunsCrashed(boots[..last], slot, n - 1)
      else LastRunsCrashed(boots[..last], slot, n)
  }

  lemma {:induction false} CrashLoopingMeansLastRunsCrashed(boots: seq<BootRecord>, slot: string, n: nat)
    ensures H.CrashLooping(Crashes(boots, slot), n) <==> n > 0 && LastRunsCrashed(boots, slot, n)
    decreases |boots|
  {
    if n > 0 && |boots| > 1 {
      var last := |boots| - 1;
      var before := Crashes(boots[..last], slot);
      if boots[last - 1].slot != slot {
        assert Crashes(boots, slot) == before;
        CrashLoopingMeansLastRunsCrashed(boots[..last], slot, n);
      } else {
        AppendedCrash(before, boots[last].crash, n);
        if n > 1 {
          CrashLoopingMeansLastRunsCrashed(boots[..last], slot, n - 1);
        }
      }
    }
  }

  lemma AppendedCrash(before: seq<bool>, crash: bool, n: nat)
    requires n > 0
    ensures H.CrashLooping(before + [crash], n) <==> crash && (n == 1 || H.CrashLooping(before, n - 1))
  {
    var all := before + [crash];
    if H.CrashLooping(all, n) {
      assert all[|all| - 1];
      forall i | |before| - (n - 1) <= i < |before| ensures before[i] {
        assert all[i];
      }
    }
  }

  /** The log's crash list is the end of the whole history's. */
  lemma {:induction false} CrashesOfSuffix(older: seq<BootRecord>, boots: seq<BootRecord>, slot: string)
    ensures EndsWith(Crashes(older + boots, slot), Crashes(boots, slot))
    decreases |boots|
  {
    if |boots| > 1 {
      var last := |boots| - 1;
      var all := older + boots;
      assert all[..|all| - 1] == older + boots[..last];
      assert all[|all| - 1] == boots[last] && all[|all| - 2] == boots[last - 1];
      CrashesOfSuffix(older, boots[..last], slot);
      EndsWithLonger(Crashes(older + boots[..last], slot), Crashes(boots[..last], slot),
                     if boots[last - 1].slot == slot then [boots[last].crash] else []);
    }
  }

  predicate EndsWith<T(==)>(all: seq<T>, tail: seq<T>) {
    |tail| <= |all| && Newest(all, |tail|) == tail
  }

  lemma EndsWithLonger<T>(all: seq<T>, tail: seq<T>, more: seq<T>)
    requires EndsWith(all, tail)
    ensures EndsWith(all + more, tail + more)
  {
    assert (all + more)[|all| - |tail|..] == all[|all| - |tail|..] + more;
  }

  lemma NewestKeepsDecision(all: seq<bool>, k: nat, n: nat)
    requires n > 0 && k <= |all|
    ensures H.CrashLooping(Newest(all, k), n) <==> k >= n && H.CrashLooping(all, n)
  {
    var recent := Newest(all, k);
    forall i | 0 <= i < k ensures recent[i] == all[|all| - k + i] {
    }
    if k >= n && H.CrashLooping(recent, n) {
      forall i | |all| - n <= i < |all| ensures all[i] {
        assert recent[i - (|all| - k)];
      }
    }
  }

  /** The decision on the newest `k` boots is the decision on all of them, as soon as those hold that many
      completed runs of the slot; otherwise it is no. */
  lemma NewestDecide(boots: seq<BootRecord>, k: nat, slot: string, n: nat)
    requires n > 0 && k <= |boots|
    ensures
      var crashes := Crashes(Newest(boots, k), slot);
      H.CrashLooping(crashes, n) <==> |crashes| >= n && LastRunsCrashed(boots, slot, n)
  {
    var recent := Newest(boots, k);
    assert boots == boots[..|boots| - k] + recent;
    CrashesOfSuffix(boots[..|boots| - k], recent, slot);
    NewestKeepsDecision(Crashes(boots, slot), |Crashes(recent, slot)|, n);
    CrashLoopingMeansLastRunsCrashed(boots, slot, n);
  }

  /** Crashes that ended the other slot's runs never count. */
  lemma {:induction false} OthersCrashesNeverCount(boots: seq<BootRecord>, boots': seq<BootRecord>, slot: string)
    requires |boots| == |boots'|
    requires forall i :: 0 <= i < |boots| ==> boots[i].slot == boots'[i].slot
    requires forall i :: 0 < i < |boots| && boots[i - 1].slot == slot ==> boots[i].crash == boots'[i].crash
    ensures Crashes(boots, slot) == Crashes(boots', slot)
    decreases |boots|
  {
    if |boots| > 1 {
      var last := |boots| - 1;
      OthersCrashesNeverCount(boots[..last], boots'[..last], slot);
    }
  }
}
