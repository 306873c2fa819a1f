/** `generateQuestions(num)`: draw questions, keep each one no earlier kept
    question shallow-equals, stop at `num`. The unbounded stream of
    `generateQuestion()` calls is a finite sequence of candidates here. */
module QuestionSet {
  import opened Levels
  import opened Questions

  /** `questions.some(q => shallowEqual(q, question))`. */
  predicate IsDuplicate(question: Question, questions: seq<Question>)
  {
    exists i :: 0 <= i < |questions| && SameQuestion(questions[i], question)
  }

  /** No two entries are shallow-equal. */
  predicate Distinct(questions: seq<Question>)
  {
    forall i, j :: 0 <= i < j < |questions| ==> !SameQuestion(questions[i], questions[j])
  }

  /** Reference definition: what the builder keeps of a candidate stream
      when it never stops early. Each candidate is appended unless it
      duplicates an entry kept before it. */
  function Sieve(candidates: seq<Question>): (kept: seq<Question>)
    ensures |kept| <= |candidates|
  {
    if candidates == [] then []
    else
      var prev := Sieve(candidates[..|candidates| - 1]);
      var last := candidates[|candidates| - 1];
      if IsDuplicate(last, prev) then prev else prev + [last]
  }

  /** Positions in the stream of the kept candidates. */
  function Origins(candidates: seq<Question>): seq<nat>
  {
    if candidates == [] then []
    else
      var prev := Origins(candidates[..|candidates| - 1]);
      var last := candidates[|candidates| - 1];
      if IsDuplicate(last, Sieve(candidates[..|candidates| - 1])) then prev else prev + [|candidates| - 1]
  }

  /** What the builder keeps is pairwise distinct. */
  lemma {:induction false} SieveDistinct(candidates: seq<Question>)
    ensures Distinct(Sieve(candidates))
  {
    if candidates != [] {
      SieveDistinct(candidates[..|candidates| - 1]);
    }
  }

  /** Every kept entry is a candidate, and they keep the stream's order:
      the k-th kept entry is the candidate at a strictly increasing position. */
  lemma {:induction false} SieveInOrder(candidates: seq<Question>)
    ensures |Origins(candidates)| == |Sieve(candidates)|
    ensures forall k :: 0 <= k < |Origins(candidates)| ==>
      Origins(candidates)[k] < |candidates| && Sieve(candidates)[k] == candidates[Origins(candidates)[k]]
    ensures forall k, k' :: 0 <= k < k' < |Origins(candidates)| ==> Origins(candidates)[k] < Origins(candidates)[k']
  {
    if candidates != [] {
      var init := candidates[..|candidates| - 1];
      SieveInOrder(init);
      assert forall k :: 0 <= k < |Origins(init)| ==> candidates[Origins(init)[k]] == init[Origins(init)[k]];
    }
  }

  /** Once kept, an entry is never changed or moved: what is kept of a
      prefix of the stream is a prefix of what is kept of the whole. */
  lemma {:induction false} SievePrefix(candidates: seq<Question>, n: nat)
    requires n <= |candidates|
    ensures var p := Sieve(candidates[..n]);
      |p| <= |Sieve(candidates)| && Sieve(candidates)[..|p|] == p
  {
    if n < |candidates| {
      var init := candidates[..|candidates| - 1];
      assert init[..n] == candidates[..n];
      SievePrefix(init, n);
    } else {
      assert candidates[..n] == candidates;
    }
  }

  /** Since shallowEqual is equality on questions, being a duplicate is
      being an element. */
  lemma DuplicateIsMember(question: Question, questions: seq<Question>)
    ensures IsDuplicate(question, questions) <==> question in questions
  {
    if IsDuplicate(question, questions) {
      var i :| 0 <= i < |questions| && SameQuestion(questions[i], question);
      SameQuestionIsEquality(questions[i], question);
    }
    if question in questions {
      var i :| 0 <= i < |questions| && questions[i] == question;
      SameQuestionIsEquality(questions[i], question);
    }
  }

  /** A candidate that is not kept was discarded as a duplicate: every
      candidate equals some kept entry. */
  lemma {:induction false} SieveCovers(candidates: seq<Question>)
    ensures forall i :: 0 <= i < |candidates| ==> candidates[i] in Sieve(candidates)
  {
    if candidates != [] {
      var init := candidates[..|candidates| - 1];
      var last := candidates[|candidates| - 1];
      SieveCovers(init);
      DuplicateIsMember(last, Sieve(init));
      assert forall i :: 0 <= i < |init| ==> candidates[i] == init[i];
    }
  }

  /** A sequence without repeats has as many different elements as entries. */
  lemma {:induction false} NoRepeatsCardinality(s: seq<Question>)
    requires forall i, j :: 0 <= i < j < |s| ==> s[i] != s[j]
    ensures |set q | q in s| == |s|
  {
    if s != [] {
      var init := s[..|s| - 1];
      NoRepeatsCardinality(init);
      assert s[|s| - 1] !in init;
      assert (set q | q in s) == (set q | q in init) + {s[|s| - 1]};
    }
  }

  /** The builder keeps one question per different candidate: what it can
      keep is exactly the number of different questions in the stream. */
  lemma SieveSizeIsDistinctCount(candidates: seq<Question>)
    ensures |Sieve(candidates)| == |set q | q in candidates|
  {
    var kept := Sieve(candidates);
    SieveDistinct(candidates);
    SieveInOrder(candidates);
    SieveCovers(candidates);
    forall i, j | 0 <= i < j < |kept| ensures kept[i] != kept[j] {
      SameQuestionIsEquality(kept[i], kept[j]);
    }
    NoRepeatsCardinality(kept);
    assert (set q | q in kept) == (set q | q in candidates);
  }

  /** A stream without repeats is kept whole. */
  lemma {:induction false} SieveOfNoRepeats(candidates: seq<Question>)
    requires forall i, j :: 0 <= i < j < |candidates| ==> candidates[i] != candidates[j]
    ensures Sieve(candidates) == candidates
  {
    if candidates != [] {
      var init := candidates[..|candidates| - 1];
      SieveOfNoRepeats(init);
      DuplicateIsMember(candidates[|candidates| - 1], init);
    }
  }

  /** `generateQuestions(num)` on the candidate stream `candidates`. `used`
      is how many candidates were drawn; `ok` is false when the stream ran
      out first, where the source would go on drawing (it never finishes
      only when the stream holds fewer than `num` different questions). */
  method GenerateQuestions(num: nat, candidates: seq<Question>)
    returns (questions: seq<Question>, used: nat, ok: bool)
    ensures used <= |candidates| && questions == Sieve(candidates[..used])
    ensures Distinct(questions)
    ensures ok <==> |questions| == num
    ensures ok <==> num <= |Sieve(candidates)|
    ensures ok && num == 0 ==> used == 0
    ensures ok && num > 0 ==> used > 0 && |Sieve(candidates[..used - 1])| < num
    ensures !ok ==> used == |candidates| && |questions| < num
  {
    questions, used := [], 0;
    for i := 0 to num
      invariant used <= |candidates|
      invariant questions == Sieve(candidates[..used]) && |questions| == i
      invariant i == 0 ==> used == 0
      invariant i > 0 ==> used > 0 && |Sieve(candidates[..used - 1])| < i
    {
      if used == |candidates| {
        assert candidates[..used] == candidates;
        SieveDistinct(candidates[..used]);
        return questions, used, false;
      }
      var question := candidates[used];
      used := used + 1;
      while IsDuplicate(question, questions)
        invariant 0 < used <= |candidates|
        invariant question == candidates[used - 1]
        invariant questions == Sieve(candidates[..used - 1]) && |questions| == i
        decreases |candidates| - used
      {
        assert candidates[..used][..used - 1] == candidates[..used - 1];
        if used == |candidates| {
          assert candidates[..used] == candidates;
          SieveDistinct(candidates[..used]);
          return questions, used, false;
        }
        question := candidates[used];
        used := used + 1;
      }
      assert candidates[..used][..used - 1] == candidates[..used - 1];
      questions := questions + [question];
    }
    SieveDistinct(candidates[..used]);
    SievePrefix(candidates, used);
    ok := true;
  }

  /** The candidate stream a level's draws produce. */
  function Candidates(l: Level, draws: seq<Draws>): (c: seq<Question>)
    requires ValidLevel(l) && forall i :: 0 <= i < |draws| ==> ValidDraws(draws[i])
    ensures |c| == |draws| && forall i :: 0 <= i < |c| ==> Admissible(l, c[i])
  {
    seq(|draws|, i requires 0 <= i < |draws| => GenerateQuestion(l, draws[i]))
  }

  /** `generateQuestions(level.questions)` for the resolved level: when it
      finishes, the sheet has exactly `level.questions` distinct questions,
      every one admissible for the level. */
  method BuildQuestionSet(l: Level, draws: seq<Draws>) returns (questions: seq<Question>, ok: bool)
    requires ValidLevel(l) && forall i :: 0 <= i < |draws| ==> ValidDraws(draws[i])
    ensures ok <==> |questions| == l.questions
    ensures ok <==> l.questions <= |set q | q in Candidates(l, draws)|
    ensures Distinct(questions)
    ensures forall k :: 0 <= k < |questions| ==> Admissible(l, questions[k])
  {
    var candidates := Candidates(l, draws);
    var used;
    questions, used, ok := GenerateQuestions(l.questions, candidates);
    SieveSizeIsDistinctCount(candidates);
    SieveInOrder(candidates[..used]);
    forall k | 0 <= k < |questions| ensures Admissible(l, questions[k]) {
      assert questions[k] == candidates[..used][Origins(candidates[..used])[k]];
    }
  }

  /** A level whose times tables are different numbers and which has at
      least as many products as questions. */
  predicate RoomyLevel(l: Level)
  {
    && ValidLevel(l)
    && (forall i, j :: 0 <= i < j < |l.tables| ==> l.tables[i] != l.tables[j])
    && l.questions <= |l.tables| * l.ceiling
  }

  predicate Increasing(s: seq<int>)
  {
    forall i :: 0 < i < |s| ==> s[i - 1] < s[i]
  }

  lemma {:induction false} IncreasingHasNoRepeats(s: seq<int>)
    requires Increasing(s)
    ensures forall i, j :: 0 <= i < j < |s| ==> s[i] < s[j]
  {
    if |s| > 1 {
      var init := s[..|s| - 1];
      IncreasingHasNoRepeats(init);
      assert forall i :: 0 <= i < |s| - 1 ==> s[i] == init[i];
      forall i | 0 <= i < |s| - 1 ensures s[i] < s[|s| - 1] {
        if i < |s| - 2 {
          assert s[i] < s[|s| - 2];
        }
      }
    }
  }

  /** Every configured level is roomy. */
  lemma TableRoomy()
    ensures forall key :: key in Table ==> RoomyLevel(Table[key])
  {
    TableValid();
    var lists := [[2], [2, 5], [2, 5, 10], [2, 3, 4, 5, 10], [2, 3, 4, 5, 8, 10], TwoToTwelve];
    forall k | 0 <= k < |lists|
      ensures forall i, j :: 0 <= i < j < |lists[k]| ==> lists[k][i] != lists[k][j]
    {
      assert Increasing(lists[k]);
      IncreasingHasNoRepeats(lists[k]);
    }
    forall key | key in Table ensures RoomyLevel(Table[key]) {
      assert Table[key].tables in lists;
    }
  }

  /** The `i`-th of the plain products `t x m` of a level, table by table. */
  function Product(l: Level, i: nat): Question
    requires ValidLevel(l) && i < |l.tables| * l.ceiling
  {
    var t, m := i / l.ceiling, i % l.ceiling + 1;
    assert t < |l.tables| by { DivBelow(i, l.ceiling, |l.tables|); }
    Multiple(l.tables[t], m, l.tables[t] * m)
  }

  lemma DivBelow(i: nat, c: nat, k: nat)
    requires c > 0 && i < k * c
    ensures i / c < k
  {
  }

  lemma ProductsDiffer(l: Level, i: nat, j: nat)
    requires RoomyLevel(l) && i < j < |l.tables| * l.ceiling
    ensures Product(l, i) != Product(l, j)
  {
    var c := l.ceiling;
    assert i == (i / c) * c + i % c && j == (j / c) * c + j % c;
    if i / c == j / c {
      assert i % c != j % c;
    } else {
      DivBelow(i, c, |l.tables|);
      DivBelow(j, c, |l.tables|);
    }
  }

  /** Draws that make the generator produce `Product(l, i)`. */
  function ProductDraws(l: Level, i: nat): Draws
    requires ValidLevel(l) && i < |l.tables| * l.ceiling
  {
    DivBelow(i, l.ceiling, |l.tables|);
    DrawsFor(l, MultipleKind, i / l.ceiling, i % l.ceiling + 1, true)
  }

  lemma ProductDrawsProduce(l: Level, i: nat)
    requires ValidLevel(l) && i < |l.tables| * l.ceiling
    ensures ValidDraws(ProductDraws(l, i)) && GenerateQuestion(l, ProductDraws(l, i)) == Product(l, i)
  {
    DivBelow(i, l.ceiling, |l.tables|);
    DrawsForChoose(l, MultipleKind, i / l.ceiling, i % l.ceiling + 1, true);
  }

  /** For a roomy level, some stream of draws lets the builder finish: the
      retry loop can always complete, even though nothing forces it to. */
  lemma RoomyLevelCanFinish(l: Level)
    requires RoomyLevel(l)
    ensures exists draws: seq<Draws> ::
      && (forall i :: 0 <= i < |draws| ==> ValidDraws(draws[i]))
      && l.questions <= |set q | q in Candidates(l, draws)|
  {
    var n := l.questions;
    var draws := seq(n, i requires 0 <= i < n => ProductDraws(l, i));
    forall i | 0 <= i < n ensures ValidDraws(draws[i]) {
      ProductDrawsProduce(l, i);
    }
    var candidates := Candidates(l, draws);
    forall i | 0 <= i < n ensures candidates[i] == Product(l, i) {
      ProductDrawsProduce(l, i);
    }
    forall i, j | 0 <= i < j < n ensures candidates[i] != candidates[j] {
      ProductsDiffer(l, i, j);
    }
    NoRepeatsCardinality(candidates);
  }
}
