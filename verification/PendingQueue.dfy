/** The queue of function-pointer immediates in the scan of
    tools_recon/lib_boundary_scan.py, over instructions already classified. */
module PendingQueue {
  import opened Wrappers

  /** Who an immediate is handed to: a named target with its family, or an import slot. */
  datatype Receiver = Target(name: string, family: string) | Slot(address: nat)

  /** An immediate operand of an instruction; `entry` says that it is the entry of a
      function of the game. */
  datatype Imm<T> = Imm(site: T, entry: bool)

  /** Unowned: outside every known function. Direct: a direct call or jump.
      Indirect: a call through an absolute address. */
  datatype Insn<T> =
    | Unowned
    | Direct(target: string, family: string)
    | Indirect(slot: nat)
    | Other(inGame: bool, imms: seq<Imm<T>>)

  datatype Ref<T> = Ref(site: T, receiver: Option<Receiver>)

  const LIMIT := 8

  predicate IsCall<T>(x: Insn<T>) {
    x.Direct? || x.Indirect?
  }

  function ReceiverOf<T>(x: Insn<T>): Receiver
    requires IsCall(x)
  {
    if x.Direct? then Target(x.target, x.family) else Slot(x.slot)
  }

  function Entries<T>(imms: seq<Imm<T>>): seq<T> {
    if imms == [] then []
    else
      var i := |imms| - 1;
      Entries(imms[..i]) + (if imms[i].entry then [imms[i].site] else [])
  }

  /** The immediates an instruction records. */
  function Recorded<T>(x: Insn<T>): seq<T> {
    if x.Other? && x.inGame then Entries(x.imms) else []
  }

  function RecordedIn<T>(s: seq<Insn<T>>): seq<T> {
    if s == [] then [] else Recorded(s[0]) + RecordedIn(s[1..])
  }

  function Handed<T>(pending: seq<T>, to: Option<Receiver>): (refs: seq<Ref<T>>)
    ensures |refs| == |pending|
  {
    seq(|pending|, i requires 0 <= i < |pending| => Ref(pending[i], to))
  }

  // ----- what becomes of an immediate, without a queue

  /** The receiver of immediates pending before `s`, `level` of them in all. */
  function Fate<T>(level: nat, s: seq<Insn<T>>): Option<Receiver>
    decreases |s|
  {
    if s == [] then None
    else if IsCall(s[0]) then Some(ReceiverOf(s[0]))
    else
      var now := level + |Recorded(s[0])|;
      if now > LIMIT then None else Fate(now, s[1..])
  }

  /** How many are pending after an instruction. */
  function LevelAfter<T>(level: nat, x: Insn<T>): (after: nat)
    ensures after <= LIMIT
  {
    var now := level + |Recorded(x)|;
    if IsCall(x) || now > LIMIT then 0 else now
  }

  /** Every immediate of `s` in stream order with its own fate, which it shares with
      those already pending when it is recorded. */
  function Fates<T>(level: nat, s: seq<Insn<T>>): seq<Ref<T>>
    decreases |s|
  {
    if s == [] then []
    else Handed(Recorded(s[0]), Fate(level, s)) + Fates(LevelAfter(level, s[0]), s[1..])
  }

  /** How many are pending before instruction i. */
  function LevelAt<T>(level: nat, s: seq<Insn<T>>, i: nat): nat
    requires i <= |s|
    decreases i
  {
    if i == 0 then level else LevelAt(LevelAfter(level, s[0]), s[1..], i - 1)
  }

  // ----- the scan

  lemma HandedAppend<T>(p: seq<T>, q: seq<T>, to: Option<Receiver>)
    ensures Handed(p + q, to) == Handed(p, to) + Handed(q, to)
  {
  }

  /** What the scan still has to output from a state: the pending ones first. */
  function Remaining<T>(pending: seq<T>, s: seq<Insn<T>>): seq<Ref<T>> {
    Handed(pending, Fate(|pending|, s)) + Fates(|pending|, s)
  }

  lemma HandedNothing<T>(to: Option<Receiver>)
    ensures Handed<T>([], to) == []
  {
  }

  lemma CallRemaining<T>(pending: seq<T>, s: seq<Insn<T>>)
    requires s != [] && IsCall(s[0]) && |pending| <= LIMIT
    ensures Remaining(pending, s) == Handed(pending, Some(ReceiverOf(s[0]))) + Remaining([], s[1..])
  {
    hide ReceiverOf, Handed;
    NoneRecorded(s[0]);
    HandedNothing<T>(Fate(0, s[1..]));
    HandedNothing<T>(Fate(|pending|, s));
  }

  lemma OverflowRemaining<T>(pending: seq<T>, s: seq<Insn<T>>)
    requires s != [] && !IsCall(s[0]) && |pending + Recorded(s[0])| > LIMIT
    ensures Remaining(pending, s) == Handed(pending + Recorded(s[0]), None) + Remaining([], s[1..])
  {
    hide Recorded, Handed;
    HandedNothing<T>(Fate(0, s[1..]));
    HandedAppend(pending, Recorded(s[0]), None);
  }

  lemma StayRemaining<T>(pending: seq<T>, s: seq<Insn<T>>)
    requires s != [] && !IsCall(s[0]) && |pending + Recorded(s[0])| <= LIMIT
    ensures Remaining(pending, s) == Remaining(pending + Recorded(s[0]), s[1..])
  {
    hide Recorded, Handed;
    var more := pending + Recorded(s[0]);
    HandedAppend(pending, Recorded(s[0]), Fate(|more|, s[1..]));
  }

  lemma StepRemaining<T>(pending: seq<T>, s: seq<Insn<T>>)
    requires s != [] && |pending| <= LIMIT
    ensures var more := pending + Recorded(s[0]);
            Remaining(pending, s)
            == if IsCall(s[0]) then Handed(pending, Some(ReceiverOf(s[0]))) + Remaining([], s[1..])
               else if |more| > LIMIT then Handed(more, None) + Remaining([], s[1..])
               else Remaining(more, s[1..])
  {
    hide Recorded, Handed, Remaining, ReceiverOf;
    if IsCall(s[0]) {
      CallRemaining(pending, s);
    } else if |pending + Recorded(s[0])| > LIMIT {
      OverflowRemaining(pending, s);
    } else {
      StayRemaining(pending, s);
    }
  }

  lemma NoneRecorded<T>(x: Insn<T>)
    ensures !x.Other? || !x.inGame ==> Recorded(x) == []
  {
  }

  method Scan<T>(stream: seq<Insn<T>>) returns (immRefs: seq<Ref<T>>)
    ensures immRefs == Fates(0, stream)
  {
    hide Remaining, Recorded, Entries;
    immRefs := [];
    var pending: seq<T> := [];
    ScanStart(stream);
    for i := 0 to |stream|
      invariant |pending| <= LIMIT
      invariant immRefs + Remaining(pending, stream[i..]) == Fates(0, stream)
    {
      StepRemaining(pending, stream[i..]);
      assert stream[i..][1..] == stream[i + 1..];
      NoneRecorded(stream[i]);
      assert pending + [] == pending;
      ghost var before := immRefs;
      match stream[i]
      case Unowned =>
      case Direct(target, family) =>
        immRefs := immRefs + Handed(pending, Some(Target(target, family)));
        pending := [];
      case Indirect(slot) =>
        immRefs := immRefs + Handed(pending, Some(Slot(slot)));
        pending := [];
      case Other(inGame, imms) =>
        if inGame {
          var found := CollectEntries(imms);
          pending := pending + found;
          if |pending| > LIMIT {
            immRefs := immRefs + Handed(pending, None);
            pending := [];
          }
        }
    }
    ScanEnd(pending);
    immRefs := immRefs + Handed(pending, None);
  }

  /** The inner loop over the immediates of one instruction. */
  method CollectEntries<T>(imms: seq<Imm<T>>) returns (found: seq<T>)
    ensures found == Entries(imms) && forall x: Insn<T> :: x == Other(true, imms) ==> found == Recorded(x)
  {
    found := [];
    for k := 0 to |imms|
      invariant found == Entries(imms[..k])
    {
      assert imms[..k + 1][..k] == imms[..k];
      if imms[k].entry {
        found := found + [imms[k].site];
      }
    }
    assert imms[..|imms|] == imms;
  }

  lemma ScanStart<T>(stream: seq<Insn<T>>)
    ensures [] + Remaining([], stream[0..]) == Fates(0, stream)
  {
    assert stream[0..] == stream && Handed<T>([], Fate(0, stream)) == [];
  }

  lemma ScanEnd<T>(pending: seq<T>)
    ensures Remaining(pending, []) == Handed(pending, None)
  {
  }

  // ----- conservation

  function Sites<T>(refs: seq<Ref<T>>): (sites: seq<T>)
    ensures |sites| == |refs|
  {
    seq(|refs|, i requires 0 <= i < |refs| => refs[i].site)
  }

  lemma SitesAppend<T>(p: seq<Ref<T>>, q: seq<Ref<T>>)
    ensures Sites(p + q) == Sites(p) + Sites(q)
  {
  }

  /** Every recorded immediate comes out exactly once, in stream order. */
  lemma {:induction false} NothingLost<T>(level: nat, s: seq<Insn<T>>)
    ensures Sites(Fates(level, s)) == RecordedIn(s)
    decreases |s|
  {
    hide Recorded;
    if s != [] {
      var to := Fate(level, s);
      NothingLost(LevelAfter(level, s[0]), s[1..]);
      SitesAppend(Handed(Recorded(s[0]), to), Fates(LevelAfter(level, s[0]), s[1..]));
      assert Sites(Handed(Recorded(s[0]), to)) == Recorded(s[0]);
    }
  }

  // ----- which receiver

  /** Nothing in the first n instructions calls, and what they record still fits. */
  predicate Waits<T>(level: nat, s: seq<Insn<T>>, n: nat) {
    n <= |s| && (forall k :: 0 <= k < n ==> !IsCall(s[k])) && level + |RecordedIn(s[..n])| <= LIMIT
  }

  /** Instruction n is a call and the immediates are still waiting when it comes. */
  predicate HandedAt<T>(level: nat, s: seq<Insn<T>>, n: nat) {
    n < |s| && IsCall(s[n]) && Waits(level, s, n)
  }

  /** Instruction n is the one at which more than eight are pending. */
  predicate OverflowsAt<T>(level: nat, s: seq<Insn<T>>, n: nat) {
    n < |s| && !IsCall(s[n]) && Waits(level, s, n) && level + |RecordedIn(s[..n + 1])| > LIMIT
  }

  lemma WaitsStep<T>(level: nat, s: seq<Insn<T>>, n: nat)
    requires s != [] && !IsCall(s[0]) && n > 0
    ensures Waits(level, s, n) <==> Waits(level + |Recorded(s[0])|, s[1..], n - 1)
    ensures n <= |s| ==> |RecordedIn(s[..n])| == |Recorded(s[0])| + |RecordedIn(s[1..][..n - 1])|
  {
    hide Recorded;
    var rest := s[1..];
    if n <= |s| {
      assert s[..n][1..] == rest[..n - 1];
      if forall k :: 0 <= k < n - 1 ==> !IsCall(rest[k]) {
        forall k | 0 <= k < n
          ensures !IsCall(s[k])
        {
          if k > 0 { assert s[k] == rest[k - 1]; }
        }
      }
      if forall k :: 0 <= k < n ==> !IsCall(s[k]) {
        assert forall k :: 0 <= k < n - 1 ==> rest[k] == s[k + 1];
      }
    }
  }

  /** Each of the three outcomes decides the fate ... */
  lemma {:induction false} OutcomeDecides<T>(level: nat, s: seq<Insn<T>>, n: nat)
    requires level <= LIMIT
    ensures HandedAt(level, s, n) ==> Fate(level, s) == Some(ReceiverOf(s[n]))
    ensures OverflowsAt(level, s, n) || (n == |s| && Waits(level, s, n)) ==> Fate(level, s) == None
    decreases n
  {
    hide Recorded;
    if s == [] {
    } else if n == 0 {
      assert s[..1][1..] == [];
    } else if Waits(level, s, n) {
      WaitsStep(level, s, n);
      WaitsStep(level, s, n + 1);
      if n < |s| { assert s[n] == s[1..][n - 1]; }
      OutcomeDecides(level + |Recorded(s[0])|, s[1..], n - 1);
    }
  }

  /** ... and one of them always happens. */
  lemma {:induction false} OutcomeExists<T>(level: nat, s: seq<Insn<T>>) returns (n: nat)
    requires level <= LIMIT
    ensures HandedAt(level, s, n) || OverflowsAt(level, s, n) || (n == |s| && Waits(level, s, n))
    decreases |s|
  {
    hide Recorded;
    if s == [] || IsCall(s[0]) {
      n := 0;
      assert s[..0] == [];
    } else {
      var now := level + |Recorded(s[0])|;
      assert s[..0] == [] && s[..1][1..] == [];
      if now > LIMIT {
        n := 0;
      } else {
        var m := OutcomeExists(now, s[1..]);
        n := m + 1;
        WaitsStep(level, s, n);
        WaitsStep(level, s, n + 1);
        if m < |s[1..]| { assert s[n] == s[1..][m]; }
      }
    }
  }

  /** Immediates pending before `s` go to the first call that comes while they wait;
      they get no receiver exactly when too many pile up first or the stream ends. */
  lemma FateExact<T(!new)>(level: nat, s: seq<Insn<T>>)
    requires level <= LIMIT
    ensures forall r :: Fate(level, s) == Some(r)
                        <==> exists n: nat :: HandedAt(level, s, n) && ReceiverOf(s[n]) == r
    ensures Fate(level, s) == None <==> (exists n: nat :: OverflowsAt(level, s, n)) || Waits(level, s, |s|)
  {
    hide OverflowsAt, Waits, Fate;
    var n := OutcomeExists(level, s);
    forall m: nat
      ensures HandedAt(level, s, m) ==> Fate(level, s) == Some(ReceiverOf(s[m]))
      ensures OverflowsAt(level, s, m) || (m == |s| && Waits(level, s, m)) ==> Fate(level, s) == None
    {
      OutcomeDecides(level, s, m);
    }
  }

  /** Where the immediates of instruction i are in the output, and with which fate. */
  lemma {:induction false} FatesAt<T>(level: nat, s: seq<Insn<T>>, i: nat) returns (before: seq<Ref<T>>, after: seq<Ref<T>>)
    requires i < |s|
    ensures Fates(level, s) == before + Handed(Recorded(s[i]), Fate(LevelAt(level, s, i), s[i..])) + after
    ensures Sites(before) == RecordedIn(s[..i]) && Sites(after) == RecordedIn(s[i + 1..])
    decreases i
  {
    hide Recorded, Handed, Fate;
    var next := LevelAfter(level, s[0]);
    if i == 0 {
      before, after := [], Fates(next, s[1..]);
      NothingLost(next, s[1..]);
      assert s[0..] == s && s[..0] == [];
    } else {
      var first := Handed(Recorded(s[0]), Fate(level, s));
      var inner: seq<Ref<T>>;
      inner, after := FatesAt(next, s[1..], i - 1);
      before := first + inner;
      SitesOfHanded(Recorded(s[0]), Fate(level, s));
      SitesAppend(first, inner);
      assert s[..i][1..] == s[1..][..i - 1] && s[1..][i - 1..] == s[i..] && s[1..][i..] == s[i + 1..];
    }
  }

  lemma SitesOfHanded<T>(pending: seq<T>, to: Option<Receiver>)
    ensures Sites(Handed(pending, to)) == pending
  {
  }

  lemma {:induction false} LevelAtFits<T>(level: nat, s: seq<Insn<T>>, i: nat)
    requires i <= |s| && level <= LIMIT
    ensures LevelAt(level, s, i) <= LIMIT
    decreases i
  {
    if i > 0 { LevelAtFits(LevelAfter(level, s[0]), s[1..], i - 1); }
  }

  /** In the output of a whole scan, the immediates of instruction i come behind all
      earlier and before all later ones; they carry the receiver of the first call
      after i reached with no more than eight pending, and none if there is none. */
  lemma ScanReceivers<T(!new)>(stream: seq<Insn<T>>, i: nat)
      returns (before: seq<Ref<T>>, to: Option<Receiver>, after: seq<Ref<T>>)
    requires i < |stream|
    ensures Fates(0, stream) == before + Handed(Recorded(stream[i]), to) + after
    ensures Sites(before) == RecordedIn(stream[..i]) && Sites(after) == RecordedIn(stream[i + 1..])
    ensures var s, level := stream[i..], LevelAt(0, stream, i);
            level <= LIMIT
            && (forall r :: to == Some(r) <==> exists n: nat :: HandedAt(level, s, n) && ReceiverOf(s[n]) == r)
            && (to == None <==> (exists n: nat :: OverflowsAt(level, s, n)) || Waits(level, s, |s|))
  {
    hide Recorded, Handed, Fates, Fate, HandedAt, OverflowsAt, Waits, ReceiverOf;
    before, after := FatesAt(0, stream, i);
    to := Fate(LevelAt(0, stream, i), stream[i..]);
    LevelAtFits(0, stream, i);
    FateExact(LevelAt(0, stream, i), stream[i..]);
  }
}
