/** The fragment of Python regular-expression syntax that the pattern compiler
    emits, as an abstract syntax tree: its text (`Render`), a parser back from
    the text (`Parse`), and what `re.match` decides for it (`Matches`). */
module PatternAst {
  import opened Letters

  datatype Option<T> = None | Some(value: T)

  /** One position of the skeleton: `.` or a fixed letter. */
  datatype Slot = Any | Fixed(letter: Letter)

  /** A zero-width assertion placed between `^` and the skeleton. */
  datatype Constraint =
    | Include(letter: Letter)                          // (?=.*L)
    | ExcludeClass(letters: seq<Letter>)               // (?!.*[L1L2...])
    | ExcludeAt(letter: Letter, before: nat, after: nat)  // (?!.{before}L.{after}), dots written out

  /** `^` constraints skeleton `$` */
  datatype Pattern = Pattern(constraints: seq<Constraint>, skeleton: seq<Slot>)

  /** A character class must list at least one letter to be a valid regex. */
  predicate WellFormed(p: Pattern) {
    forall c :: c in p.constraints ==> c.ExcludeClass? ==> |c.letters| > 0
  }

  // ---------------------------------------------------------------------------
  // Text

  function Dots(k: nat): string {
    seq(k, _ => '.')
  }

  function SlotText(slot: Slot): char {
    match slot
    case Any => '.'
    case Fixed(l) => l
  }

  function SkeletonText(sk: seq<Slot>): string {
    seq(|sk|, i requires 0 <= i < |sk| => SlotText(sk[i]))
  }

  function ConstraintText(c: Constraint): string {
    match c
    case Include(l) => "(?=.*" + [l] + ")"
    case ExcludeClass(ls) => "(?!.*[" + ls + "])"
    case ExcludeAt(l, b, a) => "(?!" + Dots(b) + [l] + Dots(a) + ")"
  }

  function ConstraintsText(cs: seq<Constraint>): string {
    if cs == [] then "" else ConstraintText(cs[0]) + ConstraintsText(cs[1..])
  }

  /** Python's `''.join(parts)`. */
  function Join(parts: seq<string>): string {
    if parts == [] then "" else parts[0] + Join(parts[1..])
  }

  /** The list of constraint strings, one per constraint. */
  function Texts(cs: seq<Constraint>): seq<string> {
    seq(|cs|, i requires 0 <= i < |cs| => ConstraintText(cs[i]))
  }

  lemma TextsAppend(cs: seq<Constraint>, c: Constraint)
    ensures Texts(cs + [c]) == Texts(cs) + [ConstraintText(c)]
  {
  }

  lemma TextsConcat(cs: seq<Constraint>, ds: seq<Constraint>)
    ensures Texts(cs + ds) == Texts(cs) + Texts(ds)
  {
  }

  function Render(p: Pattern): (s: string)
    ensures 2 <= |s| && s[0] == '^' && s[|s| - 1] == '$'
    ensures p.constraints == [] ==> s == "^" + SkeletonText(p.skeleton) + "$"
  {
    "^" + ConstraintsText(p.constraints) + SkeletonText(p.skeleton) + "$"
  }

  lemma {:induction false} JoinTexts(cs: seq<Constraint>)
    ensures Join(Texts(cs)) == ConstraintsText(cs)
  {
    if cs != [] {
      assert Texts(cs)[1..] == Texts(cs[1..]);
      JoinTexts(cs[1..]);
    }
  }

  // ---------------------------------------------------------------------------
  // Parsing the text back

  /** The number of leading `.` characters. */
  function DotRun(s: string): (k: nat)
    ensures k <= |s|
    ensures forall i :: 0 <= i < k ==> s[i] == '.'
    ensures k < |s| ==> s[k] != '.'
  {
    if |s| > 0 && s[0] == '.' then 1 + DotRun(s[1..]) else 0
  }

  /** The number of leading letters. */
  function LetterRun(s: string): (k: nat)
    ensures k <= |s|
    ensures forall i :: 0 <= i < k ==> IsLetter(s[i])
    ensures k < |s| ==> !IsLetter(s[k])
  {
    if |s| > 0 && IsLetter(s[0]) then 1 + LetterRun(s[1..]) else 0
  }

  /** One constraint at the front of `s`, and the text after it. */
  function ParseConstraint(s: string): (r: Option<(Constraint, string)>)
    ensures r.Some? ==> |r.value.1| < |s|
  {
    if |s| >= 7 && s[..5] == "(?=.*" && IsLetter(s[5]) && s[6] == ')' then
      Some((Include(s[5]), s[7..]))
    else if |s| >= 6 && s[..6] == "(?!.*[" then
      ParseClass(s)
    else if |s| >= 3 && s[..3] == "(?!" then
      ParseExcludeAt(s)
    else
      None
  }

  /** A character class after its `(?!.*[` head. */
  function ParseClass(s: string): (r: Option<(Constraint, string)>)
    requires |s| >= 6
    ensures r.Some? ==> |r.value.1| < |s|
  {
    var k := LetterRun(s[6..]);
    if 0 < k && 8 + k <= |s| && s[6 + k] == ']' && s[7 + k] == ')' then
      var ls: seq<Letter> := s[6..6 + k];
      Some((ExcludeClass(ls), s[8 + k..]))
    else
      None
  }

  /** A positional exclusion after its `(?!` head. */
  function ParseExcludeAt(s: string): (r: Option<(Constraint, string)>)
    requires |s| >= 3
    ensures r.Some? ==> |r.value.1| < |s|
  {
    var b := DotRun(s[3..]);
    if 3 + b < |s| && IsLetter(s[3 + b]) then
      var a := DotRun(s[4 + b..]);
      if 4 + b + a < |s| && s[4 + b + a] == ')' then
        Some((ExcludeAt(s[3 + b], b, a), s[5 + b + a..]))
      else
        None
    else
      None
  }

  /** The constraints at the front of `s`: as many as start with `(`. */
  function ParseConstraints(s: string): Option<(seq<Constraint>, string)>
    decreases |s|
  {
    if |s| > 0 && s[0] == '(' then
      match ParseConstraint(s)
      case None => None
      case Some((c, rest)) =>
        match ParseConstraints(rest)
        case None => None
        case Some((cs, rest')) => Some(([c] + cs, rest'))
    else
      Some(([], s))
  }

  /** A skeleton followed by the closing `$` and nothing else. */
  function ParseSkeleton(s: string): Option<seq<Slot>> {
    if s == "$" then Some([])
    else if |s| > 0 && (s[0] == '.' || IsLetter(s[0])) then
      match ParseSkeleton(s[1..])
      case None => None
      case Some(sk) => Some([if s[0] == '.' then Any else Fixed(s[0])] + sk)
    else
      None
  }

  function Parse(s: string): Option<Pattern> {
    if |s| > 0 && s[0] == '^' then
      match ParseConstraints(s[1..])
      case None => None
      case Some((cs, rest)) =>
        match ParseSkeleton(rest)
        case None => None
        case Some(sk) => Some(Pattern(cs, sk))
    else
      None
  }

  lemma DotRunOf(k: nat, rest: string)
    requires rest == [] || rest[0] != '.'
    ensures DotRun(Dots(k) + rest) == k
  {
    var s := Dots(k) + rest;
    assert forall i :: 0 <= i < k ==> s[i] == '.';
    assert k < |s| ==> s[k] == rest[0];
  }

  lemma LetterRunOf(ls: seq<Letter>, rest: string)
    requires rest == [] || !IsLetter(rest[0])
    ensures LetterRun(ls + rest) == |ls|
  {
    var s := ls + rest;
    assert forall i :: 0 <= i < |ls| ==> s[i] == ls[i];
    assert |ls| < |s| ==> s[|ls|] == rest[0];
  }

  lemma ParseIncludeText(l: Letter, rest: string)
    ensures ParseConstraint(ConstraintText(Include(l)) + rest) == Some((Include(l), rest))
  {
    var s := ConstraintText(Include(l)) + rest;
    assert s[..5] == "(?=.*";
    assert s[7..] == rest;
  }

  lemma ParseClassText(ls: seq<Letter>, rest: string)
    requires |ls| > 0
    ensures ParseConstraint(ConstraintText(ExcludeClass(ls)) + rest) == Some((ExcludeClass(ls), rest))
  {
    var s := ConstraintText(ExcludeClass(ls)) + rest;
    assert s[2] == '!';
    assert s[..6] == "(?!.*[";
    ParseClassBody(ls, rest);
  }

  lemma ParseClassBody(ls: seq<Letter>, rest: string)
    requires |ls| > 0
    ensures ParseClass(ConstraintText(ExcludeClass(ls)) + rest) == Some((ExcludeClass(ls), rest))
  {
    var s := ConstraintText(ExcludeClass(ls)) + rest;
    assert s[6..] == ls + ("])" + rest);
    LetterRunOf(ls, "])" + rest);
    var k := |ls|;
    assert s[6..6 + k] == ls;
    assert s[6 + k] == ']' && s[7 + k] == ')';
    assert s[8 + k..] == rest;
  }

  lemma ParseExcludeAtText(l: Letter, b: nat, a: nat, rest: string)
    ensures ParseConstraint(ConstraintText(ExcludeAt(l, b, a)) + rest) == Some((ExcludeAt(l, b, a), rest))
  {
    var s := ConstraintText(ExcludeAt(l, b, a)) + rest;
    assert s[2] == '!';
    assert |s| >= 6 ==> s[..6] != "(?!.*[" by {
      if b == 0 {
        assert s[3] == l;
      } else if b == 1 {
        assert s[4] == l;
      } else {
        assert s[4] == '.';
      }
    }
    assert s[..3] == "(?!";
    ParseExcludeAtBody(l, b, a, rest);
  }

  lemma ParseExcludeAtBody(l: Letter, b: nat, a: nat, rest: string)
    ensures ParseExcludeAt(ConstraintText(ExcludeAt(l, b, a)) + rest) == Some((ExcludeAt(l, b, a), rest))
  {
    var s := ConstraintText(ExcludeAt(l, b, a)) + rest;
    assert s[3..] == Dots(b) + ([l] + Dots(a) + ")" + rest);
    DotRunOf(b, [l] + Dots(a) + ")" + rest);
    assert s[3 + b] == l;
    assert s[4 + b..] == Dots(a) + (")" + rest);
    DotRunOf(a, ")" + rest);
    assert s[4 + b + a] == ')';
    assert s[5 + b + a..] == rest;
  }

  lemma ParseConstraintText(c: Constraint, rest: string)
    requires c.ExcludeClass? ==> |c.letters| > 0
    ensures ParseConstraint(ConstraintText(c) + rest) == Some((c, rest))
  {
    match c
    case Include(l) => ParseIncludeText(l, rest);
    case ExcludeClass(ls) => ParseClassText(ls, rest);
    case ExcludeAt(l, b, a) => ParseExcludeAtText(l, b, a, rest);
  }

  lemma {:induction false} ParseConstraintsText(cs: seq<Constraint>, rest: string)
    requires forall c :: c in cs ==> c.ExcludeClass? ==> |c.letters| > 0
    requires rest == [] || rest[0] != '('
    ensures ParseConstraints(ConstraintsText(cs) + rest) == Some((cs, rest))
  {
    var s := ConstraintsText(cs) + rest;
    if cs == [] {
      assert s == rest;
    } else {
      var tail := ConstraintsText(cs[1..]) + rest;
      assert s == ConstraintText(cs[0]) + tail;
      assert s[0] == '(';
      assert cs[0] in cs;
      ParseConstraintText(cs[0], tail);
      ParseConstraintsText(cs[1..], rest);
      ParseConstraintsStep(s, cs[0], tail, cs[1..], rest);
      assert [cs[0]] + cs[1..] == cs;
    }
  }

  /** One unfolding of `ParseConstraints`, stated over the results of its two calls. */
  lemma ParseConstraintsStep(s: string, c: Constraint, tail: string, cs: seq<Constraint>, rest: string)
    requires |s| > 0 && s[0] == '('
    requires ParseConstraint(s) == Some((c, tail))
    requires ParseConstraints(tail) == Some((cs, rest))
    ensures ParseConstraints(s) == Some(([c] + cs, rest))
  {
  }

  lemma {:induction false} ParseSkeletonText(sk: seq<Slot>)
    ensures ParseSkeleton(SkeletonText(sk) + "$") == Some(sk)
  {
    var s := SkeletonText(sk) + "$";
    if sk == [] {
      assert s == "$";
    } else {
      assert s[0] == SlotText(sk[0]);
      assert s[1..] == SkeletonText(sk[1..]) + "$";
      ParseSkeletonText(sk[1..]);
      assert [if s[0] == '.' then Any else Fixed(s[0])] == [sk[0]];
      assert [sk[0]] + sk[1..] == sk;
    }
  }

  /** The parser reads every well-formed pattern back from its text. */
  lemma ParseRender(p: Pattern)
    requires WellFormed(p)
    ensures Parse(Render(p)) == Some(p)
  {
    var s := Render(p);
    var ct := ConstraintsText(p.constraints);
    var st := SkeletonText(p.skeleton) + "$";
    assert s == "^" + (ct + st);
    assert s[1..] == ct + st;
    assert st[0] != '(' by {
      if p.skeleton != [] {
        assert st[0] == SlotText(p.skeleton[0]);
      }
    }
    ParseConstraintsText(p.constraints, st);
    ParseSkeletonText(p.skeleton);
  }

  // ---------------------------------------------------------------------------
  // What `re.match(Render(p), s)` decides

  /** The text before the first newline; `.` never matches a newline. */
  function FirstLine(s: string): (line: string)
    ensures line <= s
    ensures '\n' !in line
    ensures |line| < |s| ==> s[|line|] == '\n'
  {
    if s == [] || s[0] == '\n' then [] else [s[0]] + FirstLine(s[1..])
  }

  predicate SlotAccepts(slot: Slot, c: char) {
    match slot
    case Any => c != '\n'
    case Fixed(l) => c == l
  }

  /** A lookahead evaluated at the start of the subject, whose first line is `line`. */
  predicate Holds(c: Constraint, line: string) {
    match c
    case Include(l) => l in line
    case ExcludeClass(ls) => forall i :: 0 <= i < |line| ==> line[i] !in ls
    case ExcludeAt(l, b, a) => !(b + 1 + a <= |line| && line[b] == l)
  }

  /** `re.match` of the rendered pattern against `s`: the skeleton has to fill
      the first line, `$` lets one trailing newline follow it, and every
      lookahead has to hold at position 0. */
  function Matches(p: Pattern, s: string): (m: bool)
    ensures m ==> |s| == |p.skeleton| || (|s| == |p.skeleton| + 1 && s[|s| - 1] == '\n')
    ensures m ==> |p.skeleton| <= |s| && forall i :: 0 <= i < |p.skeleton| ==> s[i] != '\n' && SlotAccepts(p.skeleton[i], s[i])
  {
    var line := FirstLine(s);
    && |line| == |p.skeleton|
    && |s| <= |line| + 1
    && (forall i :: 0 <= i < |line| ==> SlotAccepts(p.skeleton[i], line[i]))
    && (forall c :: c in p.constraints ==> Holds(c, line))
  }

  lemma FirstLineOfLine(s: string)
    requires '\n' !in s
    ensures FirstLine(s) == s
    ensures FirstLine(s + "\n") == s
  {
    var t := s + "\n";
    assert forall i :: 0 <= i < |s| ==> t[i] == s[i];
    assert t[|s|] == '\n';
  }

  /** `$` in Python also matches just before a final newline, so a subject
      with one trailing newline matches exactly when the subject without it does. */
  lemma MatchesTrailingNewline(p: Pattern, s: string)
    requires '\n' !in s
    ensures Matches(p, s + "\n") <==> Matches(p, s)
  {
    FirstLineOfLine(s);
  }
}
