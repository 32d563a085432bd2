/** The few `java.lang.String` operations the launcher's core relies on,
    written out with Java's semantics. */
module JavaStrings {

  // ---------------------------------------------------------------------------
  // toLowerCase

  /** Lower-cases one ASCII letter; every other character is kept. */
  function LowerChar(c: char): char
  {
    if 'A' <= c <= 'Z' then (c as int + 32) as char else c
  }

  /** `s.toLowerCase()` on ASCII letters: the same length, each character lowered. */
  function Lower(s: string): (r: string)
    ensures |r| == |s|
    ensures forall i :: 0 <= i < |s| ==> r[i] == LowerChar(s[i])
  {
    if s == [] then [] else [LowerChar(s[0])] + Lower(s[1..])
  }

  // ---------------------------------------------------------------------------
  // contains / replace

  /** Whether `t` occurs in `s` as a contiguous piece. */
  predicate Occurs(s: string, t: string)
    decreases |s|
  {
    |t| <= |s| && (s[..|t|] == t || (s != [] && Occurs(s[1..], t)))
  }

  /** A non-empty `t` never occurs in a string that lacks its first character. */
  lemma {:induction false} AbsentFirstCharNeverOccurs(s: string, t: string)
    requires t != [] && t[0] !in s
    ensures !Occurs(s, t)
    decreases |s|
  {
    if |t| <= |s| {
      assert s[..|t|][0] == s[0];
      if s != [] {
        AbsentFirstCharNeverOccurs(s[1..], t);
      }
    }
  }

  /** If the first character of `t` stands in `s` only at position 0, then `t`
      can occur in `s` only as its prefix. */
  lemma {:induction false} OccursOnlyAsPrefix(s: string, t: string)
    requires t != [] && s != [] && t[0] !in s[1..]
    requires Occurs(s, t)
    ensures |t| <= |s| && s[..|t|] == t
  {
    AbsentFirstCharNeverOccurs(s[1..], t);
  }

  /** `s.replace(target, replacement)`: scanning left to right, every
      occurrence of `target` that does not overlap an earlier replaced one is
      replaced by `replacement`. */
  function Replace(s: string, target: string, replacement: string): string
    requires target != []
    decreases |s|
  {
    if |s| < |target| then s
    else if s[..|target|] == target then replacement + Replace(s[|target|..], target, replacement)
    else [s[0]] + Replace(s[1..], target, replacement)
  }

  /** Replacing a target that does not occur leaves the string as it was. */
  lemma {:induction false} ReplaceAbsent(s: string, target: string, replacement: string)
    requires target != [] && !Occurs(s, target)
    ensures Replace(s, target, replacement) == s
    decreases |s|
  {
    if |s| >= |target| {
      ReplaceAbsent(s[1..], target, replacement);
      assert [s[0]] + s[1..] == s;
    }
  }

  /** A prefix that lacks the target's first character is passed over
      unchanged: the scan finds no match starting inside it. */
  lemma {:induction false} ReplaceAfterPlain(a: string, s: string, target: string, replacement: string)
    requires target != [] && target[0] !in a
    ensures Replace(a + s, target, replacement) == a + Replace(s, target, replacement)
    decreases |a|
  {
    if a == [] {
      assert a + s == s;
    } else {
      var t := a + s;
      assert t[1..] == a[1..] + s;
      ReplaceAfterPlain(a[1..], s, target, replacement);
      if |t| >= |target| {
        assert t[..|target|][0] == a[0];
      }
      assert [a[0]] + (a[1..] + Replace(s, target, replacement)) == a + Replace(s, target, replacement);
    }
  }

  /** A target right after a prefix without its first character is replaced,
      and the scan goes on after it. */
  lemma ReplaceAfterPlainPrefix(a: string, target: string, b: string, replacement: string)
    requires target != [] && target[0] !in a
    ensures Replace(a + target + b, target, replacement) == a + replacement + Replace(b, target, replacement)
  {
    assert a + target + b == a + (target + b);
    ReplaceAfterPlain(a, target + b, target, replacement);
    assert (target + b)[..|target|] == target;
    assert (target + b)[|target|..] == b;
  }

  /** A string that is exactly the target becomes exactly the replacement. */
  lemma ReplaceWhole(target: string, replacement: string)
    requires target != []
    ensures Replace(target, target, replacement) == replacement
  {
    assert target[..|target|] == target;
    assert Replace(target[|target|..], target, replacement) == [];
  }

  // ---------------------------------------------------------------------------
  // split(" +")

  /** The longest prefix of `s` that holds no space. */
  function Word(s: string): (w: string)
    ensures |w| <= |s| && w == s[..|w|]
    ensures ' ' !in w
    ensures |w| == |s| || s[|w|] == ' '
  {
    if s == [] || s[0] == ' ' then [] else [s[0]] + Word(s[1..])
  }

  /** `s` without its leading spaces. */
  function TrimLeft(s: string): (t: string)
    ensures |t| <= |s| && t == s[|s| - |t|..]
    ensures t == [] || t[0] != ' '
  {
    if s != [] && s[0] == ' ' then TrimLeft(s[1..]) else s
  }

  /** The pieces the pattern `" +"` cuts `s` into, before `split` drops the
      empty pieces at the end: the text before the first run of spaces, then the
      pieces of what follows that run. */
  function Pieces(s: string): (r: seq<string>)
    ensures |r| >= 1
    ensures forall i :: 0 <= i < |r| ==> ' ' !in r[i]
    decreases |s|
  {
    var w := Word(s);
    if |w| == |s| then
      assert w == s;
      [s]
    else
      var rest := TrimLeft(s[|w|..]);
      assert rest != s[|w|..];
      var pieces := Pieces(rest);
      var r := [w] + pieces;
      assert forall i :: 0 < i < |r| ==> r[i] == pieces[i - 1];
      r
  }

  /** `xs` without its trailing empty strings. */
  function DropTrailingEmpty(xs: seq<string>): (r: seq<string>)
    ensures |r| <= |xs| && r == xs[..|r|]
    ensures r == [] || r[|r| - 1] != []
    ensures forall i :: |r| <= i < |xs| ==> xs[i] == []
  {
    if xs != [] && xs[|xs| - 1] == [] then DropTrailingEmpty(xs[..|xs| - 1]) else xs
  }

  /** `s.split(" +")`: a string with no space comes back whole (so `""` gives
      `[""]`); otherwise the pieces between runs of spaces, a leading empty piece
      kept and the trailing empty pieces dropped. */
  function Split(s: string): (r: seq<string>)
    ensures forall i :: 0 <= i < |r| ==> ' ' !in r[i]
  {
    if ' ' !in s then [s] else DropTrailingEmpty(Pieces(s))
  }

  /** A word: a non-empty string without spaces. */
  predicate IsWord(w: string)
  {
    w != [] && ' ' !in w
  }

  /** The words of `s`: its maximal runs of non-space characters, in order. */
  function Words(s: string): (r: seq<string>)
    ensures forall i :: 0 <= i < |r| ==> IsWord(r[i])
    decreases |s|
  {
    var t := TrimLeft(s);
    if t == [] then []
    else
      var w := Word(t);
      assert w != [];
      var rest := Words(t[|w|..]);
      assert IsWord(w);
      var r := [w] + rest;
      assert forall i :: 0 < i < |r| ==> r[i] == rest[i - 1];
      r
  }

  /** Dropping trailing empties from a sequence with one more element in front. */
  lemma {:induction false} DropTrailingEmptyCons(x: string, ys: seq<string>)
    ensures DropTrailingEmpty([x] + ys) ==
      if x == [] && DropTrailingEmpty(ys) == [] then [] else [x] + DropTrailingEmpty(ys)
    decreases |ys|
  {
    if ys != [] && ys[|ys| - 1] == [] {
      assert ([x] + ys)[..|ys|] == [x] + ys[..|ys| - 1];
      DropTrailingEmptyCons(x, ys[..|ys| - 1]);
    }
  }

  /** Leading spaces do not change the words. */
  lemma WordsOfTrimmed(s: string)
    ensures Words(TrimLeft(s)) == Words(s)
  {
    var t := TrimLeft(s);
    assert TrimLeft(t) == t;
  }

  /** For a string that does not start with a space, the pieces left after
      dropping trailing empties are exactly its words. */
  lemma {:induction false} PiecesAreWords(s: string)
    requires s == [] || s[0] != ' '
    ensures DropTrailingEmpty(Pieces(s)) == Words(s)
    decreases |s|
  {
    if s != [] {
      var w := Word(s);
      assert TrimLeft(s) == s;
      assert w != [];
      if |w| == |s| {
        assert w == s;
        assert Pieces(s) == [s];
        assert Words(s) == [s] + Words(s[|w|..]);
        assert s[|w|..] == [];
      } else {
        var rest := TrimLeft(s[|w|..]);
        assert Pieces(s) == [w] + Pieces(rest);
        assert Words(s) == [w] + Words(s[|w|..]);
        WordsOfTrimmed(s[|w|..]);
        PiecesAreWords(rest);
        DropTrailingEmptyCons(w, Pieces(rest));
      }
    }
  }

  /** `split(" +")` against the words of the string: whole when there is no
      space; otherwise the words, preceded by one empty token exactly when the
      string starts with a space and has a word at all. */
  lemma {:induction false} SplitIsWords(s: string)
    ensures Split(s) ==
      if ' ' !in s then [s]
      else if s[0] == ' ' && Words(s) != [] then [[]] + Words(s)
      else Words(s)
  {
    if ' ' in s {
      if s[0] == ' ' {
        var u := TrimLeft(s);
        assert Word(s) == [];
        assert Pieces(s) == [[]] + Pieces(u);
        PiecesAreWords(u);
        assert TrimLeft(u) == u;
        DropTrailingEmptyCons([], Pieces(u));
      } else {
        PiecesAreWords(s);
      }
    }
  }

  // ---------------------------------------------------------------------------
  // Long.toString for non-negative values

  /** The decimal digit for `d`. */
  function Digit(d: nat): char
    requires d < 10
  {
    ('0' as int + d) as char
  }

  /** The decimal form of `n`, without sign or leading zeros. */
  function Decimal(n: nat): (r: string)
    ensures r != [] && forall i :: 0 <= i < |r| ==> '0' <= r[i] <= '9'
  {
    if n < 10 then [Digit(n)] else Decimal(n / 10) + [Digit(n % 10)]
  }

  /** Reads a string of decimal digits back as a number. */
  function DecimalValue(s: string): nat
    requires forall i :: 0 <= i < |s| ==> '0' <= s[i] <= '9'
  {
    if s == [] then 0 else DecimalValue(s[..|s| - 1]) * 10 + (s[|s| - 1] as int - '0' as int)
  }

  /** Reading the decimal form of `n` gives back `n`. */
  lemma {:induction false} DecimalRoundTrip(n: nat)
    ensures DecimalValue(Decimal(n)) == n
  {
    if n >= 10 {
      var d := Decimal(n);
      assert d[..|d| - 1] == Decimal(n / 10);
      DecimalRoundTrip(n / 10);
    }
  }

  /** Distinct numbers have distinct decimal forms. */
  lemma DecimalInjective(m: nat, n: nat)
    requires m != n
    ensures Decimal(m) != Decimal(n)
  {
    DecimalRoundTrip(m);
    DecimalRoundTrip(n);
  }
}
