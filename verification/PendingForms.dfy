/** The queue of pending immediates in plain terms: which immediates are queued, how many
    may wait, and what a call they are handed to is recorded as. */
module PendingForms {
  import opened Wrappers
  import opened PendingQueue

  /** Immediates of instructions inside the game are recorded if they are function
      entries, in their order. */
  lemma {:induction false} EntriesParts<T>(a: seq<Imm<T>>, b: seq<Imm<T>>)
    ensures Entries<T>([]) == [] && Entries(a + b) == Entries(a) + Entries(b)
    ensures |a| == 1 ==> Entries(a) == if a[0].entry then [a[0].site] else []
    decreases |b|
  {
    hide Entries;
    EntriesEnds(a);
    if b == [] {
      assert a + b == a;
      assert Entries(a) + [] == Entries(a);
    } else {
      var n := |b| - 1;
      EntriesParts(a, b[..n]);
      EntriesStep(b[..n], b[n]);
      EntriesStep(a + b[..n], b[n]);
      assert b == b[..n] + [b[n]] && a + b == a + b[..n] + [b[n]];
    }
  }

  lemma EntriesEnds<T>(a: seq<Imm<T>>)
    ensures Entries<T>([]) == []
    ensures |a| == 1 ==> Entries(a) == if a[0].entry then [a[0].site] else []
  {
    if |a| == 1 { EntriesStep([], a[0]); assert a == [] + [a[0]]; }
  }

  lemma EntriesStep<T>(a: seq<Imm<T>>, x: Imm<T>)
    ensures Entries(a + [x]) == Entries(a) + (if x.entry then [x.site] else [])
  {
    assert (a + [x])[..|a|] == a;
  }

  lemma RecordedForm<T>(imms: seq<Imm<T>>, target: string, family: string, slot: nat)
    ensures Recorded(Other(true, imms)) == Entries(imms)
    ensures Recorded(Other(false, imms)) == [] && Recorded<T>(Unowned) == []
    ensures Recorded<T>(Direct(target, family)) == [] && Recorded<T>(Indirect(slot)) == []
  {
  }

  /** Nothing happens to the queue. */
  predicate Quiet<T>(s: seq<Insn<T>>) {
    forall i :: 0 <= i < |s| ==> s[i] == Unowned || (s[i].Other? && Recorded(s[i]) == [])
  }

  /** A direct call or jump is recorded with its target and the target's family, an
      indirect one with the slot it reads. */
  function CallRecord<T>(x: Insn<T>): Receiver
    requires x.Direct? || x.Indirect?
  {
    match x
    case Direct(target, family) => Target(target, family)
    case Indirect(slot) => Slot(slot)
  }

  lemma {:induction false} QuietFate<T>(level: nat, s: seq<Insn<T>>, rest: seq<Insn<T>>)
    requires Quiet(s) && level <= 8
    ensures Fate(level, s + rest) == Fate(level, rest)
    ensures Fates(level, s + rest) == Fates(level, rest)
    decreases |s|
  {
    hide Recorded, Handed;
    if s == [] {
      assert s + rest == rest;
    } else {
      assert (s + rest)[0] == s[0] && (s + rest)[1..] == s[1..] + rest;
      QuietFate(level, s[1..], rest);
      NothingRecorded(s[0]);
      HandedNothing<T>(Fate(level, s + rest));
    }
  }

  lemma NothingRecorded<T>(x: Insn<T>)
    requires x == Unowned || (x.Other? && Recorded(x) == [])
    ensures Recorded(x) == [] && !IsCall(x)
  {
  }

  /** Up to eight immediates wait for the next call and are handed to it; nine or more
      are all given up at once. Then the queue is empty. */
  lemma NextCallTakesAll<T>(imms: seq<Imm<T>>, quiet: seq<Insn<T>>, call: Insn<T>, rest: seq<Insn<T>>)
    requires Quiet(quiet) && (call.Direct? || call.Indirect?)
    ensures var sites := Entries(imms);
            var to := if |sites| <= 8 then Some(CallRecord(call)) else None;
            Fates(0, [Other(true, imms)] + quiet + [call] + rest)
            == seq(|sites|, i requires 0 <= i < |sites| => Ref(sites[i], to)) + Fates(0, rest)
  {
    hide Entries, Recorded, Fates, Fate;
    var sites := Entries(imms);
    var first := Other(true, imms);
    var after := quiet + [call] + rest;
    var s := [first] + quiet + [call] + rest;
    assert s == [first] + after && s[1..] == after;
    assert after == quiet + ([call] + rest);
    RecordedForm(imms, "", "", 0);
    FatesStep(0, s);
    FateStep(0, s);
    CallStep(|sites|, call, rest);
    CallStep(0, call, rest);
    if |sites| <= 8 { QuietFate(|sites|, quiet, [call] + rest); } else { QuietFate(0, quiet, [call] + rest); }
    HandedForm(sites, if |sites| <= 8 then Some(CallRecord(call)) else None);
  }

  lemma HandedForm<T>(sites: seq<T>, to: Option<Receiver>)
    ensures Handed(sites, to) == seq(|sites|, i requires 0 <= i < |sites| => Ref(sites[i], to))
  {
  }

  lemma FatesStep<T>(level: nat, s: seq<Insn<T>>)
    requires s != [] && s[0].Other?
    ensures var n := level + |Recorded(s[0])|;
            Fates(level, s) == Handed(Recorded(s[0]), Fate(level, s)) + Fates(if n > 8 then 0 else n, s[1..])
  {
    hide Recorded, Handed, Fate;
  }

  lemma FateStep<T>(level: nat, s: seq<Insn<T>>)
    requires s != [] && s[0].Other?
    ensures var n := level + |Recorded(s[0])|;
            Fate(level, s) == if n > 8 then None else Fate(n, s[1..])
  {
    hide Recorded;
  }

  lemma CallStep<T>(level: nat, call: Insn<T>, rest: seq<Insn<T>>)
    requires call.Direct? || call.Indirect?
    ensures Fate(level, [call] + rest) == Some(CallRecord(call))
    ensures Fates(level, [call] + rest) == Fates(0, rest)
  {
    hide Handed;
    var s := [call] + rest;
    assert s[0] == call && s[1..] == rest;
    HandedNothing<T>(Fate(level, s));
  }

  /** What waits at the end of the stream is given up. */
  lemma EndOfStream<T>(imms: seq<Imm<T>>, quiet: seq<Insn<T>>)
    requires Quiet(quiet)
    ensures var sites := Entries(imms);
            Fates(0, [Other(true, imms)] + quiet)
            == seq(|sites|, i requires 0 <= i < |sites| => Ref(sites[i], None))
  {
    hide Entries, Recorded;
    var sites := Entries(imms);
    var s := [Other(true, imms)] + quiet;
    assert s[1..] == quiet == quiet + [];
    RecordedForm(imms, "", "", 0);
    FatesStep(0, s);
    FateStep(0, s);
    QuietFate(if |sites| <= 8 then |sites| else 0, quiet, []);
    HandedForm(sites, None);
  }
}
