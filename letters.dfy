/** Letters of a guess and the two string helpers the pattern code uses:
    Python's `sorted` on a set of letters and `str.lower` on a candidate word. */
module Letters {

  /** A guessed letter. The model restricts letters to lower-case ASCII, the
      alphabet on which `re.escape` leaves a character unchanged. */
  type Letter = c: char | IsLetter(c) witness 'a'

  predicate IsLetter(c: char) {
    'a' <= c <= 'z'
  }

  /** The letters of `s` that are at least `c`, in increasing order. */
  function LettersFrom(s: set<Letter>, c: Letter): (r: seq<Letter>)
    ensures forall i, j :: 0 <= i < j < |r| ==> r[i] < r[j]
    ensures forall x :: x in r <==> x in s && c <= x
    decreases 'z' as int - c as int
  {
    var rest := if c == 'z' then [] else LettersFrom(s, (c as int + 1) as char);
    assert forall j :: 0 <= j < |rest| ==> c < rest[j] by {
      forall j | 0 <= j < |rest| ensures c < rest[j] {
        assert rest[j] in rest;
      }
    }
    if c in s then [c] + rest else rest
  }

  /** `sorted(s)` for a set of one-letter strings: every letter once, in
      code-point order. */
  function Sorted(s: set<Letter>): (r: seq<Letter>)
    ensures forall i, j :: 0 <= i < j < |r| ==> r[i] < r[j]
    ensures forall x :: x in r <==> x in s
    ensures |r| == 0 <==> s == {}
  {
    var r := LettersFrom(s, 'a');
    assert s != {} ==> |r| > 0 by {
      if s != {} {
        var x :| x in s;
        assert x in r;
      }
    }
    assert |r| > 0 ==> r[0] in s;
    r
  }

  /** `str.lower` on ASCII: 'A'..'Z' become 'a'..'z', every other character is kept. */
  function LowerChar(c: char): char {
    if 'A' <= c <= 'Z' then (c as int + 32) as char else c
  }

  function Lower(s: string): (r: string)
    ensures |r| == |s|
    ensures forall i :: 0 <= i < |s| && 'A' <= s[i] <= 'Z' ==> IsLetter(r[i]) && r[i] as int - 'a' as int == s[i] as int - 'A' as int
    ensures forall i :: 0 <= i < |s| && !('A' <= s[i] <= 'Z') ==> r[i] == s[i]
    ensures forall i :: 0 <= i < |r| ==> !('A' <= r[i] <= 'Z')
  {
    seq(|s|, i requires 0 <= i < |s| => LowerChar(s[i]))
  }

  /** Lower-casing twice is lower-casing once. */
  lemma LowerIdempotent(s: string)
    ensures Lower(Lower(s)) == Lower(s)
  {
  }
}
