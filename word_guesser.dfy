/** `construct_regex_pattern` and `validate_word_against_pattern`: the
    accumulated knowledge is compiled into one anchored pattern, and a candidate
    word is checked against that pattern's text. */
module WordGuesser {
  import opened Letters
  import opened PatternAst

  // ---------------------------------------------------------------------------
  // What the knowledge says about a word

  /** Every word of length `n` that agrees with the knowledge: the fixed letters
      in place, every present letter somewhere, no absent letter anywhere, and
      no excluded letter at a slot it was reported present at. */
  predicate Consistent(n: int, correct: map<nat, Letter>, present: set<Letter>,
                       absent: set<Letter>, exclusions: map<Letter, set<nat>>, w: string)
  {
    && |w| == n
    && (forall i :: i in correct && i < |w| ==> w[i] == correct[i])
    && (forall l :: l in present ==> l in w)
    && (forall l :: l in absent ==> l !in w)
    && (forall l, p :: l in exclusions && p in exclusions[l] && p < |w| ==> w[p] != l)
  }

  /** Every fixed position lies inside the word, as it does for positions taken
      from a round's slots. */
  predicate FixedInside(n: int, correct: map<nat, Letter>) {
    forall i :: i in correct ==> i < n
  }

  // ---------------------------------------------------------------------------
  // What the compiler emits, up to the order in which sets are iterated

  function SlotFor(i: nat, correct: map<nat, Letter>): Slot {
    if i in correct then Fixed(correct[i]) else Any
  }

  /** The per-position skeleton: the fixed letter, or `.`. */
  function Skeleton(n: nat, correct: map<nat, Letter>): seq<Slot> {
    seq(n, i requires 0 <= i < n => SlotFor(i, correct))
  }

  /** The number of dots after the letter of a positional exclusion:
      `"." * (n - p - 1)`, which Python makes empty when the count is negative. */
  function Trailing(n: int, p: nat): nat {
    if n - p - 1 >= 0 then n - p - 1 else 0
  }

  /** The constraints the knowledge asks for. */
  predicate Expected(c: Constraint, n: int, correct: map<nat, Letter>, present: set<Letter>,
                     absent: set<Letter>, exclusions: map<Letter, set<nat>>)
  {
    match c
    case Include(l) => l in present && l !in correct.Values
    case ExcludeClass(ls) => absent != {} && ls == Sorted(absent)
    case ExcludeAt(l, b, a) => l in exclusions && b in exclusions[l] && a == Trailing(n, b)
  }

  function Rank(c: Constraint): nat {
    match c
    case Include(_) => 0
    case ExcludeClass(_) => 1
    case ExcludeAt(_, _, _) => 2
  }

  /** Inclusions first, then the absent-letter class, then positional exclusions. */
  predicate KindOrdered(cs: seq<Constraint>) {
    forall i, j :: 0 <= i < j < |cs| ==> Rank(cs[i]) <= Rank(cs[j])
  }

  predicate Distinct(cs: seq<Constraint>) {
    forall i, j :: 0 <= i < j < |cs| ==> cs[i] != cs[j]
  }

  /** The positional exclusions of one letter are adjacent: between two of them
      there is only another exclusion of the same letter. */
  predicate Grouped(cs: seq<Constraint>) {
    forall i, j, k :: 0 <= i < j < k < |cs| && cs[i].ExcludeAt? && cs[k].ExcludeAt? && cs[i].letter == cs[k].letter
      ==> cs[j].ExcludeAt? && cs[j].letter == cs[i].letter
  }

  /** `p` is a compilation of the knowledge: the skeleton of the fixed letters,
      and each expected constraint exactly once, kinds in order, with the
      exclusions of one letter side by side. */
  ghost predicate Compiled(p: Pattern, n: nat, correct: map<nat, Letter>, present: set<Letter>,
                           absent: set<Letter>, exclusions: map<Letter, set<nat>>)
  {
    && p.skeleton == Skeleton(n, correct)
    && KindOrdered(p.constraints)
    && Distinct(p.constraints)
    && Grouped(p.constraints)
    && (forall c :: c in p.constraints <==> Expected(c, n, correct, present, absent, exclusions))
  }

  // The three groups of constraints, as the three loops of the compiler build them.

  ghost predicate Inclusions(cs: seq<Constraint>, correct: map<nat, Letter>, present: set<Letter>) {
    && Distinct(cs)
    && (forall c :: c in cs <==> c.Include? && c.letter in present && c.letter !in correct.Values)
  }

  ghost predicate AbsentClass(cs: seq<Constraint>, absent: set<Letter>) {
    cs == if absent == {} then [] else [ExcludeClass(Sorted(absent))]
  }

  ghost predicate PositionalExclusions(cs: seq<Constraint>, n: int, exclusions: map<Letter, set<nat>>) {
    && Distinct(cs)
    && Grouped(cs)
    && (forall c :: c in cs <==>
          c.ExcludeAt? && c.letter in exclusions && c.before in exclusions[c.letter]
          && c.after == Trailing(n, c.before))
  }

  lemma DistinctAppend(cs: seq<Constraint>, c: Constraint)
    requires Distinct(cs) && c !in cs
    ensures Distinct(cs + [c])
  {
    var ds := cs + [c];
    forall i, j | 0 <= i < j < |ds| ensures ds[i] != ds[j] {
      if j == |cs| {
        assert ds[i] == cs[i];
      } else {
        assert ds[i] == cs[i] && ds[j] == cs[j];
      }
    }
  }

  /** Appending an exclusion of the letter that every exclusion from index `m`
      on has, and no exclusion before `m` has, keeps the letters grouped. */
  lemma GroupedAppend(cs: seq<Constraint>, c: Constraint, m: nat)
    requires Grouped(cs) && c.ExcludeAt? && m <= |cs|
    requires forall i :: 0 <= i < |cs| ==> cs[i].ExcludeAt?
    requires forall i :: 0 <= i < m ==> cs[i].letter != c.letter
    requires forall i :: m <= i < |cs| ==> cs[i].letter == c.letter
    ensures Grouped(cs + [c])
  {
    var ds := cs + [c];
    forall i, j, k | 0 <= i < j < k < |ds| && ds[i].ExcludeAt? && ds[k].ExcludeAt? && ds[i].letter == ds[k].letter
      ensures ds[j].ExcludeAt? && ds[j].letter == ds[i].letter
    {
      assert ds[i] == cs[i] && ds[j] == cs[j];
      if k < |cs| {
        assert ds[k] == cs[k];
      }
    }
  }

  /** Constraints other than positional exclusions in front keep them grouped. */
  lemma GroupedAfter(pre: seq<Constraint>, cs: seq<Constraint>)
    requires forall i :: 0 <= i < |pre| ==> !pre[i].ExcludeAt?
    requires Grouped(cs)
    ensures Grouped(pre + cs)
  {
    var ds := pre + cs;
    var d := |pre|;
    forall i, j, k | 0 <= i < j < k < |ds| && ds[i].ExcludeAt? && ds[k].ExcludeAt? && ds[i].letter == ds[k].letter
      ensures ds[j].ExcludeAt? && ds[j].letter == ds[i].letter
    {
      assert i >= d;
      assert ds[i] == cs[i - d] && ds[j] == cs[j - d] && ds[k] == cs[k - d];
    }
  }

  lemma CompiledFromGroups(incs: seq<Constraint>, cls: seq<Constraint>, excs: seq<Constraint>,
                           n: nat, correct: map<nat, Letter>, present: set<Letter>,
                           absent: set<Letter>, exclusions: map<Letter, set<nat>>)
    requires Inclusions(incs, correct, present)
    requires AbsentClass(cls, absent)
    requires PositionalExclusions(excs, n, exclusions)
    ensures Compiled(Pattern(incs + cls + excs, Skeleton(n, correct)), n, correct, present, absent, exclusions)
  {
    var cs := incs + cls + excs;
    forall i | 0 <= i < |cs|
      ensures i < |incs| ==> cs[i] == incs[i] && Rank(cs[i]) == 0
      ensures |incs| <= i < |incs| + |cls| ==> cs[i] == cls[i - |incs|] && Rank(cs[i]) == 1
      ensures |incs| + |cls| <= i ==> cs[i] == excs[i - |incs| - |cls|] && Rank(cs[i]) == 2
    {
      if i < |incs| {
        assert cs[i] == incs[i] && incs[i] in incs;
      } else if i < |incs| + |cls| {
        assert cs[i] == cls[i - |incs|];
      } else {
        assert cs[i] == excs[i - |incs| - |cls|];
        assert excs[i - |incs| - |cls|] in excs;
      }
    }
    assert KindOrdered(cs);
    forall i, j | 0 <= i < j < |cs| ensures cs[i] != cs[j] {
      if Rank(cs[i]) == Rank(cs[j]) {
        if j < |incs| {
        } else if i >= |incs| + |cls| {
          assert cs[i] == excs[i - |incs| - |cls|] && cs[j] == excs[j - |incs| - |cls|];
        }
      }
    }
    GroupedAfter(incs + cls, excs);
    forall c ensures c in cs <==> Expected(c, n, correct, present, absent, exclusions) {
      assert c in cs <==> c in incs || c in cls || c in excs;
    }
  }

  // ---------------------------------------------------------------------------
  // The compiler

  /** `construct_regex_pattern`: the empty string when the word size is not
      positive, otherwise the text of a compilation of the knowledge. The set
      and dictionary loops pick their elements in an unspecified order, as
      Python's set iteration does; `ast` is the pattern that was emitted. */
  method ConstructRegexPattern(wordSize: int, correctPositions: map<nat, Letter>,
                               presentLetters: set<Letter>, absentLetters: set<Letter>,
                               presentExclusions: map<Letter, set<nat>>)
    returns (fullPattern: string, ghost ast: Pattern)
    ensures wordSize <= 0 ==> fullPattern == ""
    ensures wordSize > 0 ==>
      && fullPattern == Render(ast)
      && Compiled(ast, wordSize, correctPositions, presentLetters, absentLetters, presentExclusions)
  {
    ast := Pattern([], []);
    if wordSize <= 0 {
      return "", ast;
    }
    var basePattern := PositionPattern(wordSize, correctPositions);

    // 1. inclusions, 2. the absent-letter class, 3. positional exclusions
    var inclusions, incs := InclusionLookaheads(correctPositions, presentLetters);
    var constraints := inclusions;
    ghost var cls: seq<Constraint> := [];
    if absentLetters != {} {
      constraints := constraints + ["(?!.*[" + Sorted(absentLetters) + "])"];
      cls := [ExcludeClass(Sorted(absentLetters))];
    }
    var exclusions, excs := ExclusionLookaheads(wordSize, presentExclusions);
    constraints := constraints + exclusions;

    ast := Pattern(incs + cls + excs, Skeleton(wordSize, correctPositions));
    assert Texts(cls) == (if absentLetters != {} then ["(?!.*[" + Sorted(absentLetters) + "])"] else []);
    TextsConcat(incs, cls);
    TextsConcat(incs + cls, excs);
    assert constraints == Texts(ast.constraints);
    CompiledFromGroups(incs, cls, excs, wordSize, correctPositions, presentLetters, absentLetters, presentExclusions);
    JoinTexts(ast.constraints);
    assert Join(constraints) == ConstraintsText(ast.constraints);
    if constraints != [] {
      fullPattern := "^" + Join(constraints) + basePattern + "$";
    } else {
      fullPattern := "^" + basePattern + "$";
    }
  }

  /** The skeleton loop of `construct_regex_pattern`: the fixed letter at each
      fixed position, `.` elsewhere. */
  method PositionPattern(wordSize: nat, correctPositions: map<nat, Letter>) returns (basePattern: string)
    ensures basePattern == SkeletonText(Skeleton(wordSize, correctPositions))
  {
    basePattern := "";
    var i := 0;
    while i < wordSize
      invariant 0 <= i <= wordSize
      invariant basePattern == SkeletonText(Skeleton(i, correctPositions))
    {
      if i in correctPositions {
        basePattern := basePattern + [correctPositions[i]];
      } else {
        basePattern := basePattern + ".";
      }
      assert Skeleton(i + 1, correctPositions) == Skeleton(i, correctPositions) + [SlotFor(i, correctPositions)];
      i := i + 1;
    }
  }

  /** The inclusion loop: one positive lookahead for each present letter that
      is not already fixed, in set iteration order. */
  method InclusionLookaheads(correctPositions: map<nat, Letter>, presentLetters: set<Letter>)
    returns (constraints: seq<string>, ghost incs: seq<Constraint>)
    ensures constraints == Texts(incs)
    ensures Inclusions(incs, correctPositions, presentLetters)
  {
    constraints, incs := [], [];
    var remaining := presentLetters;
    while remaining != {}
      invariant remaining <= presentLetters
      invariant constraints == Texts(incs)
      invariant Distinct(incs)
      invariant forall c :: c in incs <==>
        c.Include? && c.letter in presentLetters - remaining && c.letter !in correctPositions.Values
      decreases remaining
    {
      var letter :| letter in remaining;
      if letter !in correctPositions.Values {
        constraints := constraints + ["(?=.*" + [letter] + ")"];
        TextsAppend(incs, Include(letter));
        DistinctAppend(incs, Include(letter));
        incs := incs + [Include(letter)];
      }
      remaining := remaining - {letter};
    }
  }

  /** The exclusion loops: for every letter of `present_exclusions` and every
      position in its set, a negative lookahead of `pos` dots, the letter and
      `word_size - pos - 1` dots. */
  method ExclusionLookaheads(wordSize: int, presentExclusions: map<Letter, set<nat>>)
    returns (constraints: seq<string>, ghost excs: seq<Constraint>)
    ensures constraints == Texts(excs)
    ensures PositionalExclusions(excs, wordSize, presentExclusions)
  {
    constraints, excs := [], [];
    var letters := presentExclusions.Keys;
    while letters != {}
      invariant letters <= presentExclusions.Keys
      invariant constraints == Texts(excs)
      invariant Distinct(excs)
      invariant Grouped(excs)
      invariant forall c :: c in excs <==>
        c.ExcludeAt? && c.letter in presentExclusions.Keys - letters
        && c.before in presentExclusions[c.letter] && c.after == Trailing(wordSize, c.before)
      decreases letters
    {
      var letter :| letter in letters;
      var positions := presentExclusions[letter];
      ghost var m := |excs|;
      forall i | 0 <= i < m ensures excs[i].ExcludeAt? && excs[i].letter != letter {
        assert excs[i] in excs;
      }
      while positions != {}
        invariant positions <= presentExclusions[letter]
        invariant constraints == Texts(excs)
        invariant Distinct(excs)
        invariant Grouped(excs)
        invariant m <= |excs|
        invariant forall i :: 0 <= i < |excs| ==> excs[i].ExcludeAt?
        invariant forall i :: 0 <= i < m ==> excs[i].letter != letter
        invariant forall i :: m <= i < |excs| ==> excs[i].letter == letter
        invariant forall c :: c in excs <==>
          c.ExcludeAt? && c.after == Trailing(wordSize, c.before)
          && ((c.letter in presentExclusions.Keys - letters && c.before in presentExclusions[c.letter])
              || (c.letter == letter && c.before in presentExclusions[letter] - positions))
        decreases positions
      {
        var pos :| pos in positions;
        var after := if wordSize - pos - 1 >= 0 then wordSize - pos - 1 else 0;
        var exclusionPattern := Dots(pos) + [letter] + Dots(after);
        constraints := constraints + ["(?!" + exclusionPattern + ")"];
        assert "(?!" + exclusionPattern + ")" == ConstraintText(ExcludeAt(letter, pos, after));
        TextsAppend(excs, ExcludeAt(letter, pos, after));
        DistinctAppend(excs, ExcludeAt(letter, pos, after));
        GroupedAppend(excs, ExcludeAt(letter, pos, after), m);
        excs := excs + [ExcludeAt(letter, pos, after)];
        positions := positions - {pos};
      }
      letters := letters - {letter};
    }
  }

  // ---------------------------------------------------------------------------
  // The validator

  /** `validate_word_against_pattern`: false for an empty word or pattern,
      otherwise whether the pattern matches the lower-cased word. Patterns the
      parser does not read are outside the modelled fragment and are rejected. */
  function ValidateWordAgainstPattern(word: string, pattern: string): (ok: bool)
    ensures word == [] || pattern == [] ==> !ok
  {
    if word == [] || pattern == [] then false
    else
      match Parse(pattern)
      case Some(p) => Matches(p, Lower(word))
      case None => false
  }

  // ---------------------------------------------------------------------------
  // Properties of compiled patterns

  /** A word with a newline before its last character is rejected by every
      pattern: `.` and the letters never match a newline, and `$` allows one
      only at the very end. */
  lemma InnerNewlineRejected(word: string, pattern: string, i: nat)
    requires i + 1 < |word| && word[i] == '\n'
    ensures !ValidateWordAgainstPattern(word, pattern)
  {
    assert Lower(word)[i] == '\n';
  }

  lemma CompiledWellFormed(p: Pattern, n: nat, correct: map<nat, Letter>, present: set<Letter>,
                           absent: set<Letter>, exclusions: map<Letter, set<nat>>)
    requires Compiled(p, n, correct, present, absent, exclusions)
    ensures WellFormed(p)
  {
    forall c | c in p.constraints && c.ExcludeClass? ensures |c.letters| > 0 {
      assert Expected(c, n, correct, present, absent, exclusions);
    }
  }

  /** On a word without newlines, a compiled pattern matches exactly the words
      consistent with the knowledge. */
  lemma CompiledMeaning(p: Pattern, n: nat, correct: map<nat, Letter>, present: set<Letter>,
                        absent: set<Letter>, exclusions: map<Letter, set<nat>>, w: string)
    requires Compiled(p, n, correct, present, absent, exclusions)
    requires FixedInside(n, correct)
    requires '\n' !in w
    ensures Matches(p, w) <==> Consistent(n, correct, present, absent, exclusions, w)
  {
    FirstLineOfLine(w);
    assert FirstLine(w) == w;
    if Matches(p, w) {
      assert |w| == n;
      forall i | i in correct && i < |w| ensures w[i] == correct[i] {
        assert p.skeleton[i] == Fixed(correct[i]);
        assert SlotAccepts(p.skeleton[i], w[i]);
      }
      forall l | l in present ensures l in w {
        if l in correct.Values {
          var i :| i in correct && correct[i] == l;
          assert SlotAccepts(p.skeleton[i], w[i]);
        } else {
          assert Expected(Include(l), n, correct, present, absent, exclusions);
          assert Holds(Include(l), w);
        }
      }
      forall l | l in absent ensures l !in w {
        var cl := ExcludeClass(Sorted(absent));
        assert Expected(cl, n, correct, present, absent, exclusions);
        assert Holds(cl, w);
      }
      forall l, q | l in exclusions && q in exclusions[l] && q < |w| ensures w[q] != l {
        var ex := ExcludeAt(l, q, Trailing(n, q));
        assert Expected(ex, n, correct, present, absent, exclusions);
        assert Holds(ex, w);
      }
    }
    if Consistent(n, correct, present, absent, exclusions, w) {
      forall i | 0 <= i < |w| ensures SlotAccepts(p.skeleton[i], w[i]) {
        assert p.skeleton[i] == SlotFor(i, correct);
      }
      forall c | c in p.constraints ensures Holds(c, w) {
        assert Expected(c, n, correct, present, absent, exclusions);
      }
    }
  }

  /** The validator accepts exactly the words whose lower-case form is
      consistent with the knowledge, for the text of any compilation. */
  lemma ValidateCompiled(p: Pattern, n: nat, correct: map<nat, Letter>, present: set<Letter>,
                         absent: set<Letter>, exclusions: map<Letter, set<nat>>, word: string)
    requires n > 0
    requires Compiled(p, n, correct, present, absent, exclusions)
    requires FixedInside(n, correct)
    requires '\n' !in word
    ensures ValidateWordAgainstPattern(word, Render(p))
            <==> Consistent(n, correct, present, absent, exclusions, Lower(word))
  {
    CompiledWellFormed(p, n, correct, present, absent, exclusions);
    ParseRender(p);
    assert '\n' !in Lower(word) by {
      forall i | 0 <= i < |word| ensures Lower(word)[i] != '\n' {
        assert word[i] != '\n';
      }
    }
    CompiledMeaning(p, n, correct, present, absent, exclusions, Lower(word));
  }

  /** The iteration order does not matter: two compilations of the same
      knowledge match the same subjects. */
  lemma CompilationsAgree(p: Pattern, q: Pattern, n: nat, correct: map<nat, Letter>, present: set<Letter>,
                          absent: set<Letter>, exclusions: map<Letter, set<nat>>, s: string)
    requires Compiled(p, n, correct, present, absent, exclusions)
    requires Compiled(q, n, correct, present, absent, exclusions)
    ensures Matches(p, s) <==> Matches(q, s)
  {
    assert forall c :: c in p.constraints <==> c in q.constraints;
  }

  /** The text of a positional exclusion for a position inside the word has a
      body of exactly `n` characters: the letter at position `p`, dots elsewhere. */
  lemma ExclusionBody(l: Letter, p: nat, n: nat)
    requires p < n
    ensures var t := ConstraintText(ExcludeAt(l, p, Trailing(n, p)));
            && |t| == n + 4 && t[..3] == "(?!" && t[n + 3] == ')'
            && t[3 + p] == l
            && forall i :: 3 <= i < n + 3 && i != p + 3 ==> t[i] == '.'
  {
  }
}
