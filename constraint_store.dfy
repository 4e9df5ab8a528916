/** The game loop's knowledge about the target word and how one round of
    feedback updates it: the win check and the two ingestion loops of
    `play_game` (identical in guess_1.py and guess_3.py). */
module Ingestion {
  import opened Letters

  /** The `result` of a feedback record; any other string is `Unrecognised`. */
  datatype Verdict = Correct | Present | Absent | Unrecognised

  /** One record `{slot, guess, result}` of a round. */
  datatype Entry = Entry(slot: nat, guess: Letter, result: Verdict)

  /** A snapshot of `correct_positions`, `present_letters`, `absent_letters`
      and `present_exclusions`. */
  datatype Knowledge = Knowledge(correct: map<nat, Letter>, present: set<Letter>,
                                 absent: set<Letter>, exclusions: map<Letter, set<nat>>)

  const Fresh: Knowledge := Knowledge(map[], {}, {}, map[])

  /** No letter is both fixed at a position and merely known to be present. */
  predicate Disjoint(k: Knowledge) {
    k.correct.Values !! k.present
  }

  /** Every position the knowledge mentions lies in `[0, n)`. */
  predicate InRange(k: Knowledge, n: nat) {
    && (forall s :: s in k.correct ==> s < n)
    && (forall l, s :: l in k.exclusions && s in k.exclusions[l] ==> s < n)
  }

  /** A round is a win when every record says `correct`. */
  predicate IsWin(fb: seq<Entry>) {
    forall i :: 0 <= i < |fb| ==> fb[i].result == Correct
  }

  predicate HasEntry(es: seq<Entry>, l: Letter, v: Verdict) {
    exists i :: 0 <= i < |es| && es[i].guess == l && es[i].result == v
  }

  predicate HasCorrectAt(es: seq<Entry>, s: nat) {
    exists i :: 0 <= i < |es| && es[i].slot == s && es[i].result == Correct
  }

  // ---------------------------------------------------------------------------
  // The first pass: the results of each letter of the round

  /** The results reported for `l`, in feedback order. */
  function ResultsFor(fb: seq<Entry>, l: Letter): (rs: seq<Verdict>)
    ensures forall v :: v in rs <==> HasEntry(fb, l, v)
    ensures |rs| == 0 <==> forall i :: 0 <= i < |fb| ==> fb[i].guess != l
  {
    if fb == [] then []
    else
      var init, last := fb[..|fb| - 1], fb[|fb| - 1];
      assert forall i :: 0 <= i < |init| ==> init[i] == fb[i];
      var rs := ResultsFor(init, l) + (if last.guess == l then [last.result] else []);
      assert forall v :: HasEntry(fb, l, v) ==> v in rs by {
        forall v | HasEntry(fb, l, v) ensures v in rs {
          var i :| 0 <= i < |fb| && fb[i].guess == l && fb[i].result == v;
          if i < |init| {
            assert HasEntry(init, l, v);
          }
        }
      }
      rs
  }

  /** Python's `all(r == 'absent' for r in rs)`. */
  predicate AllAbsent(rs: seq<Verdict>) {
    forall i :: 0 <= i < |rs| ==> rs[i] == Absent
  }

  /** Every result of `l` in the round is `absent` (vacuously so when `l` was not guessed). */
  predicate FullyAbsent(round: seq<Entry>, l: Letter) {
    AllAbsent(ResultsFor(round, l))
  }

  lemma FullyAbsentMeans(round: seq<Entry>, l: Letter)
    ensures FullyAbsent(round, l) <==> forall i :: 0 <= i < |round| && round[i].guess == l ==> round[i].result == Absent
  {
    var rs := ResultsFor(round, l);
    if !FullyAbsent(round, l) {
      var j :| 0 <= j < |rs| && rs[j] != Absent;
      assert rs[j] in rs;
    }
    if FullyAbsent(round, l) {
      forall i | 0 <= i < |round| && round[i].guess == l ensures round[i].result == Absent {
        assert HasEntry(round, l, round[i].result);
        assert round[i].result in rs;
      }
    }
  }

  // ---------------------------------------------------------------------------
  // The second pass: each record in order

  /** The effect of one record, given the whole round for the all-absent test. */
  function ApplyEntry(k: Knowledge, e: Entry, round: seq<Entry>): Knowledge {
    match e.result
    case Correct =>
      Knowledge(k.correct[e.slot := e.guess], k.present - {e.guess}, k.absent, k.exclusions - {e.guess})
    case Present =>
      var prev := if e.guess in k.exclusions then k.exclusions[e.guess] else {};
      Knowledge(k.correct,
                if e.guess !in k.correct.Values then k.present + {e.guess} else k.present,
                k.absent,
                k.exclusions[e.guess := prev + {e.slot}])
    case Absent =>
      if FullyAbsent(round, e.guess) && e.guess !in k.correct.Values && e.guess !in k.present
      then k.(absent := k.absent + {e.guess})
      else k
    case Unrecognised => k
  }

  /** The records of `es`, applied in order. */
  function Process(k: Knowledge, es: seq<Entry>, round: seq<Entry>): Knowledge
    decreases |es|
  {
    if es == [] then k else ApplyEntry(Process(k, es[..|es| - 1], round), es[|es| - 1], round)
  }

  /** The knowledge after ingesting one round. */
  function IngestRound(k: Knowledge, fb: seq<Entry>): Knowledge {
    Process(k, fb, fb)
  }

  // ---------------------------------------------------------------------------
  // Properties of a round

  lemma {:induction false} ProcessConcat(k: Knowledge, a: seq<Entry>, b: seq<Entry>, r: seq<Entry>)
    ensures Process(k, a + b, r) == Process(Process(k, a, r), b, r)
    decreases |b|
  {
    if b == [] {
      assert a + b == a;
    } else {
      var b' := b[..|b| - 1];
      assert (a + b)[..|a + b| - 1] == a + b';
      assert (a + b)[|a + b| - 1] == b[|b| - 1];
      ProcessConcat(k, a, b', r);
    }
  }

  lemma ApplyPreservesDisjoint(k: Knowledge, e: Entry, r: seq<Entry>)
    requires Disjoint(k)
    ensures Disjoint(ApplyEntry(k, e, r))
  {
    if e.result == Correct {
      var c := k.correct[e.slot := e.guess];
      forall l | l in c.Values ensures l !in k.present - {e.guess} {
        var s :| s in c && c[s] == l;
        if s != e.slot {
          assert k.correct[s] == l;
        }
      }
    }
  }

  lemma {:induction false} ProcessPreservesDisjoint(k: Knowledge, es: seq<Entry>, r: seq<Entry>)
    requires Disjoint(k)
    ensures Disjoint(Process(k, es, r))
    decreases |es|
  {
    if es != [] {
      ProcessPreservesDisjoint(k, es[..|es| - 1], r);
      ApplyPreservesDisjoint(Process(k, es[..|es| - 1], r), es[|es| - 1], r);
    }
  }

  /** Ingestion keeps fixed letters and present letters apart. */
  lemma IngestPreservesDisjoint(k: Knowledge, fb: seq<Entry>)
    requires Disjoint(k)
    ensures Disjoint(IngestRound(k, fb))
  {
    ProcessPreservesDisjoint(k, fb, fb);
  }

  /** Ingestion never forgets that a letter is absent. */
  lemma {:induction false} AbsentOnlyGrows(k: Knowledge, es: seq<Entry>, r: seq<Entry>)
    ensures k.absent <= Process(k, es, r).absent
    decreases |es|
  {
    if es != [] {
      AbsentOnlyGrows(k, es[..|es| - 1], r);
    }
  }

  /** A present letter stops being present only through a `correct` record for
      it, and a letter becomes present only through a `present` record for it. */
  lemma {:induction false} PresentRule(k: Knowledge, es: seq<Entry>, r: seq<Entry>, l: Letter)
    ensures l in k.present && !HasEntry(es, l, Correct) ==> l in Process(k, es, r).present
    ensures l in Process(k, es, r).present ==> l in k.present || HasEntry(es, l, Present)
    decreases |es|
  {
    if es != [] {
      var init := es[..|es| - 1];
      assert forall i :: 0 <= i < |init| ==> init[i] == es[i];
      assert HasEntry(init, l, Correct) ==> HasEntry(es, l, Correct);
      assert HasEntry(init, l, Present) ==> HasEntry(es, l, Present);
      PresentRule(k, init, r, l);
    }
  }

  /** The duplicate-letter guard: a letter with any result other than `absent`
      in the round is not added to the absent letters by that round. */
  lemma {:induction false} GuardKeepsAbsent(k: Knowledge, es: seq<Entry>, r: seq<Entry>, l: Letter)
    requires !FullyAbsent(r, l)
    ensures l in Process(k, es, r).absent <==> l in k.absent
    decreases |es|
  {
    if es != [] {
      GuardKeepsAbsent(k, es[..|es| - 1], r, l);
    }
  }

  lemma DuplicateGuard(k: Knowledge, fb: seq<Entry>, i: nat)
    requires i < |fb| && fb[i].result != Absent
    ensures fb[i].guess in IngestRound(k, fb).absent <==> fb[i].guess in k.absent
  {
    FullyAbsentMeans(fb, fb[i].guess);
    GuardKeepsAbsent(k, fb, fb, fb[i].guess);
  }

  lemma {:induction false} AbsentAddedWhy(k: Knowledge, es: seq<Entry>, r: seq<Entry>, l: Letter)
    ensures l in Process(k, es, r).absent && l !in k.absent ==>
      && FullyAbsent(r, l)
      && HasEntry(es, l, Absent)
      && (l in k.present ==> HasEntry(es, l, Correct))
    decreases |es|
  {
    if es != [] {
      var init, e := es[..|es| - 1], es[|es| - 1];
      assert forall i :: 0 <= i < |init| ==> init[i] == es[i];
      assert forall v :: HasEntry(init, l, v) ==> HasEntry(es, l, v);
      AbsentAddedWhy(k, init, r, l);
      var p := Process(k, init, r);
      if l in ApplyEntry(p, e, r).absent && l !in p.absent {
        assert e.guess == l && e.result == Absent;
        PresentRule(k, init, r, l);
      }
    }
  }

  /** A letter joins the absent letters only if all of its results in the round
      are `absent`, it has at least one, and it was not present before. */
  lemma AbsentAdded(k: Knowledge, fb: seq<Entry>, l: Letter)
    requires l in IngestRound(k, fb).absent && l !in k.absent
    ensures FullyAbsent(fb, l) && HasEntry(fb, l, Absent) && l !in k.present
  {
    AbsentAddedWhy(k, fb, fb, l);
    FullyAbsentMeans(fb, l);
  }

  lemma {:induction false} AbsentRecordedGeneral(k: Knowledge, es: seq<Entry>, r: seq<Entry>, l: Letter)
    requires FullyAbsent(r, l)
    requires forall i :: 0 <= i < |es| && es[i].guess == l ==> es[i].result == Absent
    requires l !in k.present && l !in k.correct.Values
    ensures var p := Process(k, es, r); l !in p.present && l !in p.correct.Values
    ensures HasEntry(es, l, Absent) ==> l in Process(k, es, r).absent
    decreases |es|
  {
    if es != [] {
      var init, e := es[..|es| - 1], es[|es| - 1];
      assert forall i :: 0 <= i < |init| ==> init[i] == es[i];
      AbsentRecordedGeneral(k, init, r, l);
      var p := Process(k, init, r);
      AbsentOnlyGrows(k, init, r);
      assert e.result == Correct ==> e.guess != l;
      if HasEntry(es, l, Absent) && !HasEntry(init, l, Absent) {
        assert e.guess == l && e.result == Absent;
        AbsentOnlyGrows(p, [e], r);
      } else if HasEntry(init, l, Absent) {
        AbsentOnlyGrows(p, [e], r);
        assert Process(p, [e], r) == ApplyEntry(p, e, r);
      }
    }
  }

  /** Conversely, a letter guessed only with `absent` results, neither fixed nor
      present before the round, is absent after it. */
  lemma AbsentRecorded(k: Knowledge, fb: seq<Entry>, l: Letter)
    requires FullyAbsent(fb, l) && HasEntry(fb, l, Absent)
    requires l !in k.present && l !in k.correct.Values
    ensures l in IngestRound(k, fb).absent
  {
    FullyAbsentMeans(fb, l);
    AbsentRecordedGeneral(k, fb, fb, l);
  }

  lemma {:induction false} CorrectUntouched(k: Knowledge, es: seq<Entry>, r: seq<Entry>, s: nat)
    requires !HasCorrectAt(es, s)
    ensures var p := Process(k, es, r);
      && (s in p.correct <==> s in k.correct)
      && (s in k.correct ==> p.correct[s] == k.correct[s])
    decreases |es|
  {
    if es != [] {
      var init := es[..|es| - 1];
      assert forall i :: 0 <= i < |init| ==> init[i] == es[i];
      assert es[|es| - 1].result == Correct ==> es[|es| - 1].slot != s;
      CorrectUntouched(k, init, r, s);
    }
  }

  /** A slot without a `correct` record in the round keeps what it had. */
  lemma SlotUnchanged(k: Knowledge, fb: seq<Entry>, s: nat)
    requires !HasCorrectAt(fb, s)
    ensures var p := IngestRound(k, fb);
      && (s in p.correct <==> s in k.correct)
      && (s in k.correct ==> p.correct[s] == k.correct[s])
  {
    CorrectUntouched(k, fb, fb, s);
  }

  /** The last `correct` record of a slot decides its letter, whatever was there. */
  lemma LastCorrectWins(k: Knowledge, fb: seq<Entry>, j: nat)
    requires j < |fb| && fb[j].result == Correct
    requires forall i :: j < i < |fb| ==> !(fb[i].slot == fb[j].slot && fb[i].result == Correct)
    ensures var p := IngestRound(k, fb); fb[j].slot in p.correct && p.correct[fb[j].slot] == fb[j].guess
  {
    var a, b := fb[..j + 1], fb[j + 1..];
    assert fb == a + b;
    ProcessConcat(k, a, b, fb);
    assert a[..j] == fb[..j];
    var mid := Process(k, a, fb);
    assert mid.correct[fb[j].slot] == fb[j].guess;
    assert !HasCorrectAt(b, fb[j].slot) by {
      forall i | 0 <= i < |b| ensures !(b[i].slot == fb[j].slot && b[i].result == Correct) {
        assert b[i] == fb[j + 1 + i];
      }
    }
    CorrectUntouched(mid, b, fb, fb[j].slot);
  }

  /** The slots at which `l` was reported `present`. */
  function PresentSlots(es: seq<Entry>, l: Letter): (ss: set<nat>)
    ensures forall s :: s in ss <==>
      exists i :: 0 <= i < |es| && es[i].guess == l && es[i].result == Present && es[i].slot == s
  {
    if es == [] then {}
    else
      var init, e := es[..|es| - 1], es[|es| - 1];
      assert forall i :: 0 <= i < |init| ==> init[i] == es[i];
      var ss := PresentSlots(init, l) + (if e.guess == l && e.result == Present then {e.slot} else {});
      assert forall s :: (exists i :: 0 <= i < |es| && es[i].guess == l && es[i].result == Present && es[i].slot == s) ==> s in ss by {
        forall s | exists i :: 0 <= i < |es| && es[i].guess == l && es[i].result == Present && es[i].slot == s
          ensures s in ss
        {
          var i :| 0 <= i < |es| && es[i].guess == l && es[i].result == Present && es[i].slot == s;
          if i < |init| {
            assert init[i].guess == l && init[i].result == Present && init[i].slot == s;
          }
        }
      }
      ss
  }

  /** Without a `correct` record for `l`, its exclusions gain exactly the slots
      it was reported `present` at. */
  lemma {:induction false} ExclusionsAccumulate(k: Knowledge, es: seq<Entry>, r: seq<Entry>, l: Letter)
    requires !HasEntry(es, l, Correct)
    ensures var p := Process(k, es, r);
      && (l in p.exclusions <==> l in k.exclusions || PresentSlots(es, l) != {})
      && (l in p.exclusions ==>
            p.exclusions[l] == (if l in k.exclusions then k.exclusions[l] else {}) + PresentSlots(es, l))
    decreases |es|
  {
    if es != [] {
      var init, e := es[..|es| - 1], es[|es| - 1];
      assert forall i :: 0 <= i < |init| ==> init[i] == es[i];
      assert !HasEntry(init, l, Correct);
      ExclusionsAccumulate(k, init, r, l);
      assert !(e.guess == l && e.result == Correct);
      ApplyExclusions(Process(k, init, r), e, r, l);
      PresentSlotsStep(es, l);
    }
  }

  /** One record other than a `correct` one for `l` adds at most its own slot
      to the exclusions of `l`. */
  lemma ApplyExclusions(p: Knowledge, e: Entry, r: seq<Entry>, l: Letter)
    requires !(e.guess == l && e.result == Correct)
    ensures var q := ApplyEntry(p, e, r);
      var add := if e.guess == l && e.result == Present then {e.slot} else {};
      && (l in q.exclusions <==> l in p.exclusions || add != {})
      && (l in q.exclusions ==> q.exclusions[l] == (if l in p.exclusions then p.exclusions[l] else {}) + add)
  {
  }

  lemma PresentSlotsStep(es: seq<Entry>, l: Letter)
    requires es != []
    ensures var e := es[|es| - 1];
      PresentSlots(es, l) == PresentSlots(es[..|es| - 1], l) + (if e.guess == l && e.result == Present then {e.slot} else {})
  {
    var e := es[|es| - 1];
    if e.guess == l && e.result == Present {
      assert e.slot in PresentSlots(es, l);
    }
  }

  /** After the last `correct` record for `l`, its exclusions are rebuilt from
      the `present` records that follow it, and only from those. */
  lemma ExclusionsAfterCorrect(k: Knowledge, fb: seq<Entry>, j: nat)
    requires j < |fb| && fb[j].result == Correct
    requires forall i :: j < i < |fb| ==> !(fb[i].guess == fb[j].guess && fb[i].result == Correct)
    ensures var p, l, tail := IngestRound(k, fb), fb[j].guess, fb[j + 1..];
      && (l in p.exclusions <==> PresentSlots(tail, l) != {})
      && (l in p.exclusions ==> p.exclusions[l] == PresentSlots(tail, l))
  {
    var a, b, l := fb[..j + 1], fb[j + 1..], fb[j].guess;
    assert fb == a + b;
    ProcessConcat(k, a, b, fb);
    assert a[..j] == fb[..j];
    var mid := Process(k, a, fb);
    assert l !in mid.exclusions;
    assert !HasEntry(b, l, Correct) by {
      forall i | 0 <= i < |b| ensures !(b[i].guess == l && b[i].result == Correct) {
        assert b[i] == fb[j + 1 + i];
      }
    }
    ExclusionsAccumulate(mid, b, fb, l);
  }

  /** Without a `correct` record for `l`, the exclusions of `l` after the round
      are its old set plus every slot where `l` was reported `present`; the key
      is created when it was missing. */
  lemma ExclusionsWithoutCorrect(k: Knowledge, fb: seq<Entry>, l: Letter)
    requires !HasEntry(fb, l, Correct)
    ensures var p := IngestRound(k, fb);
      && (l in p.exclusions <==> l in k.exclusions || PresentSlots(fb, l) != {})
      && (l in p.exclusions ==>
            p.exclusions[l] == (if l in k.exclusions then k.exclusions[l] else {}) + PresentSlots(fb, l))
  {
    ExclusionsAccumulate(k, fb, fb, l);
  }

  /** Record order matters: a `present` record for a letter after a `correct`
      record for it recreates the letter's exclusions with just that slot, and
      does not make the letter present. */
  lemma PresentAfterCorrect(k: Knowledge, s: nat, t: nat, l: Letter, r: seq<Entry>)
    ensures var p := ApplyEntry(ApplyEntry(k, Entry(s, l, Correct), r), Entry(t, l, Present), r);
      && p.correct[s] == l
      && l !in p.present
      && l in p.exclusions && p.exclusions[l] == {t}
  {
    var mid := ApplyEntry(k, Entry(s, l, Correct), r);
    assert mid.correct[s] == l;
    assert l in mid.correct.Values;
  }

  /** The same two records in the other order leave the letter fixed and
      without exclusions. */
  lemma CorrectAfterPresent(k: Knowledge, s: nat, t: nat, l: Letter, r: seq<Entry>)
    ensures var p := ApplyEntry(ApplyEntry(k, Entry(t, l, Present), r), Entry(s, l, Correct), r);
      && p.correct[s] == l
      && l !in p.present
      && l !in p.exclusions
  {
  }

  lemma {:induction false} ProcessInRange(k: Knowledge, es: seq<Entry>, r: seq<Entry>, n: nat)
    requires InRange(k, n)
    requires forall i :: 0 <= i < |es| ==> es[i].slot < n
    ensures InRange(Process(k, es, r), n)
    decreases |es|
  {
    if es != [] {
      var init := es[..|es| - 1];
      assert forall i :: 0 <= i < |init| ==> init[i] == es[i];
      ProcessInRange(k, init, r, n);
      assert es[|es| - 1].slot < n;
    }
  }

  /** Slots inside the word keep every recorded position inside the word. */
  lemma IngestInRange(k: Knowledge, fb: seq<Entry>, n: nat)
    requires InRange(k, n)
    requires forall i :: 0 <= i < |fb| ==> fb[i].slot < n
    ensures InRange(IngestRound(k, fb), n)
  {
    ProcessInRange(k, fb, fb, n);
  }

  /** The feedback for CRANE against a word with R and E in place and A elsewhere. */
  const Crane: seq<Entry> := [Entry(0, 'c', Absent), Entry(1, 'r', Correct), Entry(2, 'a', Present),
                              Entry(3, 'n', Absent), Entry(4, 'e', Correct)]

  /** The first three records of the CRANE round. */
  lemma CranePrefix()
    ensures Process(Fresh, Crane[..3], Crane) == Knowledge(map[1 := 'r'], {'a'}, {'c'}, map['a' := {2}])
  {
    var fb := Crane;
    FullyAbsentMeans(fb, 'c');
    var k1 := ApplyEntry(Fresh, fb[0], fb);
    assert fb[..1][..0] == [];
    assert Process(Fresh, fb[..1], fb) == k1 == Knowledge(map[], {}, {'c'}, map[]);
    var k2 := ApplyEntry(k1, fb[1], fb);
    assert fb[..2][..1] == fb[..1];
    assert Process(Fresh, fb[..2], fb) == k2 == Knowledge(map[1 := 'r'], {}, {'c'}, map[]);
    var k3 := ApplyEntry(k2, fb[2], fb);
    assert 'a' !in k2.correct.Values;
    assert 'a' !in k2.exclusions;
    assert k3.exclusions == k2.exclusions['a' := {} + {2}];
    assert {} + {2} == {2};
    assert k3.exclusions == map['a' := {2}];
    assert k3.present == {'a'};
    assert fb[..3][..2] == fb[..2];
  }

  /** The worked example: the CRANE round on an empty store. */
  lemma CraneRound()
    ensures IngestRound(Fresh, Crane)
            == Knowledge(map[1 := 'r', 4 := 'e'], {'a'}, {'c', 'n'}, map['a' := {2}])
  {
    var fb := Crane;
    FullyAbsentMeans(fb, 'n');
    CranePrefix();
    var k3 := Knowledge(map[1 := 'r'], {'a'}, {'c'}, map['a' := {2}]);
    var k4 := ApplyEntry(k3, fb[3], fb);
    assert 'n' !in k3.correct.Values;
    assert fb[..4][..3] == fb[..3];
    assert Process(Fresh, fb[..4], fb) == k4 == Knowledge(map[1 := 'r'], {'a'}, {'c', 'n'}, map['a' := {2}]);
    assert fb[..4] == fb[..|fb| - 1];
    var k5 := ApplyEntry(k4, fb[4], fb);
    assert k5.correct == map[1 := 'r', 4 := 'e'];
    assert IngestRound(Fresh, fb) == k5;
  }

  /** Neither the `correct` nor the `present` branch consults the absent letters,
      so a later round that contradicts an earlier one leaves a letter both
      absent and fixed: absent letters stay apart from the others only when the
      feedback of different rounds agrees. */
  lemma AbsentNotClearedByLaterCorrect()
    ensures var k := IngestRound(IngestRound(Fresh, [Entry(0, 'a', Absent)]), [Entry(0, 'a', Correct)]);
      'a' in k.absent && 'a' in k.correct.Values
  {
    var fb1 := [Entry(0, 'a', Absent)];
    FullyAbsentMeans(fb1, 'a');
    assert fb1[..0] == [];
    var k1 := IngestRound(Fresh, fb1);
    assert k1.absent == {'a'};
    var fb2 := [Entry(0, 'a', Correct)];
    assert fb2[..0] == [];
    var k2 := IngestRound(k1, fb2);
    assert k2.correct[0] == 'a';
  }

  // ---------------------------------------------------------------------------
  // The mutable store

  /** The first pass: `guess_feedback_map`, each guessed letter's results in
      record order. A letter that was not guessed has no entry. */
  method ResultMap(feedback: seq<Entry>) returns (guessFeedbackMap: map<Letter, seq<Verdict>>)
    ensures forall l :: l in guessFeedbackMap ==> guessFeedbackMap[l] == ResultsFor(feedback, l) && |guessFeedbackMap[l]| > 0
    ensures forall l :: l !in guessFeedbackMap ==> ResultsFor(feedback, l) == []
  {
    guessFeedbackMap := map[];
    var i := 0;
    while i < |feedback|
      invariant 0 <= i <= |feedback|
      invariant forall l :: l in guessFeedbackMap ==> guessFeedbackMap[l] == ResultsFor(feedback[..i], l) && |guessFeedbackMap[l]| > 0
      invariant forall l :: l !in guessFeedbackMap ==> ResultsFor(feedback[..i], l) == []
    {
      var letter, result := feedback[i].guess, feedback[i].result;
      if letter !in guessFeedbackMap {
        guessFeedbackMap := guessFeedbackMap[letter := []];
      }
      guessFeedbackMap := guessFeedbackMap[letter := guessFeedbackMap[letter] + [result]];
      assert feedback[..i + 1][..i] == feedback[..i];
      i := i + 1;
    }
    assert feedback[..i] == feedback;
  }

  datatype RoundOutcome = NoFeedback | Won | Continue

  class ConstraintStore {
    var correctPositions: map<nat, Letter>
    var presentLetters: set<Letter>
    var absentLetters: set<Letter>
    var presentExclusions: map<Letter, set<nat>>

    function Snapshot(): Knowledge
      reads this
    {
      Knowledge(correctPositions, presentLetters, absentLetters, presentExclusions)
    }

    ghost predicate Valid()
      reads this
    {
      Disjoint(Snapshot())
    }

    /** The four empty structures `play_game` starts from. */
    constructor ()
      ensures Valid() && Snapshot() == Fresh
    {
      correctPositions := map[];
      presentLetters := {};
      absentLetters := {};
      presentExclusions := map[];
    }

    /** The two passes over one round of feedback. */
    method Ingest(feedback: seq<Entry>)
      requires Valid()
      modifies this
      ensures Valid()
      ensures Snapshot() == IngestRound(old(Snapshot()), feedback)
    {
      var guessFeedbackMap := ResultMap(feedback);

      // Second pass: every record, in order.
      ghost var start := Snapshot();
      var j := 0;
      while j < |feedback|
        invariant 0 <= j <= |feedback|
        invariant Valid()
        invariant Snapshot() == Process(start, feedback[..j], feedback)
      {
        var letter := feedback[j].guess;
        var results := if letter in guessFeedbackMap then guessFeedbackMap[letter] else [];
        ApplyRecord(feedback[j], results, feedback);
        assert feedback[..j + 1][..j] == feedback[..j];
        assert Process(start, feedback[..j + 1], feedback)
          == ApplyEntry(Process(start, feedback[..j], feedback), feedback[j], feedback);
        j := j + 1;
      }
      assert feedback[..j] == feedback;
    }

    /** The body of the second pass for one record; `results` is the entry of
        `guess_feedback_map` for its letter, or `[]` when there is none. */
    method ApplyRecord(e: Entry, results: seq<Verdict>, ghost round: seq<Entry>)
      requires Valid()
      requires results == ResultsFor(round, e.guess)
      modifies this
      ensures Valid()
      ensures Snapshot() == ApplyEntry(old(Snapshot()), e, round)
    {
      ApplyPreservesDisjoint(Snapshot(), e, round);
      var slot, letter, result := e.slot, e.guess, e.result;
      if result == Correct {
        correctPositions := correctPositions[slot := letter];
        if letter in presentLetters {
          presentLetters := presentLetters - {letter};
        }
        if letter in presentExclusions {
          presentExclusions := presentExclusions - {letter};
        }
      } else if result == Present {
        if letter !in correctPositions.Values {
          presentLetters := presentLetters + {letter};
        }
        if letter !in presentExclusions {
          presentExclusions := presentExclusions[letter := {}];
        }
        presentExclusions := presentExclusions[letter := presentExclusions[letter] + {slot}];
      } else if result == Absent {
        if AllAbsent(results) {
          if letter !in correctPositions.Values && letter !in presentLetters {
            absentLetters := absentLetters + {letter};
          }
        }
      }
    }

    /** One round of `play_game` after the feedback arrives: no feedback aborts,
        an all-`correct` round is a win and is not ingested, any other round is
        ingested. */
    method PlayRound(feedback: seq<Entry>) returns (outcome: RoundOutcome)
      requires Valid()
      modifies this
      ensures Valid()
      ensures outcome == NoFeedback <==> feedback == []
      ensures outcome == Won <==> feedback != [] && IsWin(feedback)
      ensures outcome == Continue ==> Snapshot() == IngestRound(old(Snapshot()), feedback)
      ensures outcome != Continue ==> Snapshot() == old(Snapshot())
    {
      if feedback == [] {
        return NoFeedback;
      }
      if IsWin(feedback) {
        return Won;
      }
      Ingest(feedback);
      outcome := Continue;
    }
  }
}
