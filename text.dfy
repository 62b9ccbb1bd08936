/**
 * The few Python `str` operations the scanner relies on, stated over `seq<char>`:
 * `s.split("#", 1)[0]`, `s.strip()`, `s.split()`, `s.lower()` and `s.startswith(p)`,
 * plus the decimal rendering of integers used in edit descriptions. What each operation
 * guarantees is proved in a lemma next to it, so that callers pay for it only where they use it.
 */
module Text {

  /** The characters for which Python's `str.isspace()` holds; `strip()` and `split()` use this set. */
  predicate IsSpace(c: char)
  {
    c == ' ' || ('\t' <= c <= '\r') || ('\U{1C}' <= c <= '\U{1F}') || c == '\U{85}' || c == '\U{A0}'
    || c == '\U{1680}' || ('\U{2000}' <= c <= '\U{200A}') || c == '\U{2028}' || c == '\U{2029}'
    || c == '\U{202F}' || c == '\U{205F}' || c == '\U{3000}'
  }

  predicate AllSpace(s: string)
  {
    forall i :: 0 <= i < |s| ==> IsSpace(s[i])
  }

  predicate NoSpace(s: string)
  {
    forall i :: 0 <= i < |s| ==> !IsSpace(s[i])
  }

  /** `s.split("#", 1)[0]`: the text before the first `#`, or all of `s` when it has none. */
  function BeforeHash(s: string): string
  {
    if |s| == 0 then ""
    else if s[0] == '#' then ""
    else [s[0]] + BeforeHash(s[1..])
  }

  lemma {:induction false} BeforeHashSpec(s: string)
    ensures var r := BeforeHash(s);
      && |r| <= |s| && r == s[..|r|]
      && '#' !in r
      && (r == s || s[|r|] == '#')
  {
    if |s| > 0 && s[0] != '#' {
      BeforeHashSpec(s[1..]);
    }
  }

  function TrimLeft(s: string): (r: string)
    ensures |r| <= |s|
  {
    if |s| > 0 && IsSpace(s[0]) then TrimLeft(s[1..]) else s
  }

  lemma {:induction false} TrimLeftSpec(s: string)
    ensures var r := TrimLeft(s);
      && |r| <= |s| && r == s[|s| - |r|..]
      && AllSpace(s[..|s| - |r|])
      && (r == "" || !IsSpace(r[0]))
  {
    if |s| > 0 && IsSpace(s[0]) {
      TrimLeftSpec(s[1..]);
      var r := TrimLeft(s);
      forall i | 0 <= i < |s| - |r| ensures IsSpace(s[i]) {
        if i > 0 {
          assert s[i] == s[1..][..|s| - 1 - |r|][i - 1];
        }
      }
    }
  }

  function TrimRight(s: string): string
  {
    if |s| > 0 && IsSpace(s[|s| - 1]) then TrimRight(s[..|s| - 1]) else s
  }

  lemma {:induction false} TrimRightSpec(s: string)
    ensures var r := TrimRight(s);
      && |r| <= |s| && r == s[..|r|]
      && AllSpace(s[|r|..])
      && (r == "" || !IsSpace(r[|r| - 1]))
  {
    if |s| > 0 && IsSpace(s[|s| - 1]) {
      var n := |s| - 1;
      TrimRightSpec(s[..n]);
      var r := TrimRight(s);
      forall i | |r| <= i < |s| ensures IsSpace(s[i]) {
        if i < n {
          assert s[i] == s[..n][|r|..][i - |r|];
        }
      }
    }
  }

  /** `s.strip()`: `s` without its leading and trailing whitespace. */
  function Strip(s: string): string
  {
    TrimRight(TrimLeft(s))
  }

  /** The stripped text is the infix of `s` left once the whitespace on each side is cut off. */
  lemma StripSpec(s: string)
    ensures var r := Strip(s); var a := |s| - |TrimLeft(s)|;
      && a + |r| <= |s| && r == s[a..a + |r|]
      && AllSpace(s[..a]) && AllSpace(s[a + |r|..])
      && (r == "" <==> AllSpace(s))
      && (r != "" ==> !IsSpace(r[0]) && !IsSpace(r[|r| - 1]))
  {
    StripInfix(s);
    StripEnds(s);
  }

  lemma StripInfix(s: string)
    ensures var r := Strip(s); var a := |s| - |TrimLeft(s)|;
      && a + |r| <= |s| && r == s[a..a + |r|]
      && AllSpace(s[..a]) && AllSpace(s[a + |r|..])
  {
    var t := TrimLeft(s);
    var r := TrimRight(t);
    TrimLeftSpec(s);
    TrimRightSpec(t);
    InfixOfSuffix(s, |s| - |t|, t, r);
  }

  /** A prefix `r` of the suffix `t` of `s` that starts at `a` is the infix `s[a..a + |r|]`. */
  lemma InfixOfSuffix(s: string, a: nat, t: string, r: string)
    requires a <= |s| && t == s[a..] && |r| <= |t| && r == t[..|r|] && AllSpace(t[|r|..])
    ensures a + |r| <= |s| && r == s[a..a + |r|] && AllSpace(s[a + |r|..])
  {
    assert s[a + |r|..] == t[|r|..];
  }

  lemma StripEnds(s: string)
    ensures var r := Strip(s);
      && (r == "" <==> AllSpace(s))
      && (r != "" ==> !IsSpace(r[0]) && !IsSpace(r[|r| - 1]))
  {
    var t := TrimLeft(s);
    var r := TrimRight(t);
    TrimLeftSpec(s);
    TrimRightSpec(t);
    if r == "" {
      assert s == s[..|s| - |t|];
    } else {
      assert r[0] == t[0];
    }
  }

  /** Length of the run of non-whitespace characters that begins `s`. */
  function WordLength(s: string): (n: nat)
    ensures n <= |s|
  {
    if |s| == 0 || IsSpace(s[0]) then 0 else 1 + WordLength(s[1..])
  }

  lemma {:induction false} WordLengthSpec(s: string)
    ensures var n := WordLength(s);
      && NoSpace(s[..n])
      && (n == |s| || IsSpace(s[n]))
  {
    if |s| > 0 && !IsSpace(s[0]) {
      WordLengthSpec(s[1..]);
      var n := WordLength(s);
      forall i | 0 <= i < n ensures !IsSpace(s[..n][i]) {
        if i > 0 {
          assert s[..n][i] == s[1..][..n - 1][i - 1];
        }
      }
    }
  }

  /** `s.split()`: the maximal runs of non-whitespace characters, in order. */
  function Split(s: string): seq<string>
    decreases |s|
  {
    if |s| == 0 then []
    else if IsSpace(s[0]) then Split(s[1..])
    else
      var n := WordLength(s);
      [s[..n]] + Split(s[n..])
  }

  /** The tokens are non-empty and free of whitespace, and there are none exactly when the text
      is all whitespace. */
  lemma {:induction false} SplitSpec(s: string)
    ensures var r := Split(s);
      && (forall k :: 0 <= k < |r| ==> r[k] != "" && NoSpace(r[k]))
      && (r == [] <==> AllSpace(s))
    decreases |s|
  {
    if |s| == 0 {
    } else if IsSpace(s[0]) {
      SplitSpec(s[1..]);
      if AllSpace(s[1..]) {
        forall i | 0 <= i < |s| ensures IsSpace(s[i]) {
          if i > 0 { assert s[i] == s[1..][i - 1]; }
        }
      }
      if AllSpace(s) {
        forall i | 0 <= i < |s| - 1 ensures IsSpace(s[1..][i]) {
          assert s[1..][i] == s[i + 1];
        }
      }
    } else {
      var n := WordLength(s);
      WordLengthSpec(s);
      SplitSpec(s[n..]);
      assert !AllSpace(s) by {
        assert !IsSpace(s[0]);
      }
    }
  }

  /** `gaps[0] + toks[0] + gaps[1] + ... + toks[n - 1] + gaps[n]`. */
  function Joined(gaps: seq<string>, toks: seq<string>): string
    requires |gaps| == |toks| + 1
    decreases |toks|
  {
    if |toks| == 0 then gaps[0] else gaps[0] + toks[0] + Joined(gaps[1..], toks[1..])
  }

  /** `toks` are words and `gaps` whitespace that separates them: only the outer gaps may be empty. */
  predicate WordsAndGaps(gaps: seq<string>, toks: seq<string>)
  {
    && |gaps| == |toks| + 1
    && (forall k :: 0 <= k < |gaps| ==> AllSpace(gaps[k]))
    && (forall k :: 0 < k < |toks| ==> gaps[k] != "")
    && (forall k :: 0 <= k < |toks| ==> toks[k] != "" && NoSpace(toks[k]))
  }

  lemma {:induction false} SplitAfterSpace(w: string, t: string)
    requires AllSpace(w)
    ensures Split(w + t) == Split(t)
    decreases |w|
  {
    if |w| > 0 {
      assert IsSpace((w + t)[0]);
      assert Split(w + t) == Split((w + t)[1..]);
      assert (w + t)[1..] == w[1..] + t;
      assert forall i :: 0 <= i < |w| - 1 ==> w[1..][i] == w[i + 1];
      SplitAfterSpace(w[1..], t);
    } else {
      assert w + t == t;
    }
  }

  lemma {:induction false} WordLengthOfWord(x: string, t: string)
    requires NoSpace(x) && (t == "" || IsSpace(t[0]))
    ensures WordLength(x + t) == |x|
    decreases |x|
  {
    if |x| > 0 {
      assert (x + t)[1..] == x[1..] + t;
      WordLengthOfWord(x[1..], t);
    } else {
      assert x + t == t;
    }
  }

  lemma SplitWord(x: string, t: string)
    requires x != "" && NoSpace(x) && (t == "" || IsSpace(t[0]))
    ensures Split(x + t) == [x] + Split(t)
  {
    WordLengthOfWord(x, t);
    assert (x + t)[..|x|] == x && (x + t)[|x|..] == t;
  }

  /** `split()` gives back the words of any text laid out as words and separating whitespace. */
  lemma {:induction false} SplitJoined(gaps: seq<string>, toks: seq<string>)
    requires WordsAndGaps(gaps, toks)
    ensures Split(Joined(gaps, toks)) == toks
    decreases |toks|
  {
    if |toks| == 0 {
      SplitAfterSpace(gaps[0], "");
      assert gaps[0] + "" == gaps[0];
    } else {
      var rest := Joined(gaps[1..], toks[1..]);
      assert WordsAndGaps(gaps[1..], toks[1..]) by {
        forall k | 0 < k < |toks| - 1 ensures gaps[1..][k] != "" {
          assert gaps[1..][k] == gaps[k + 1];
        }
        forall k | 0 <= k < |toks| - 1 ensures toks[1..][k] != "" && NoSpace(toks[1..][k]) {
          assert toks[1..][k] == toks[k + 1];
        }
      }
      SplitJoined(gaps[1..], toks[1..]);
      JoinedStart(gaps[1..], toks[1..]);
      assert rest == "" || IsSpace(rest[0]) by {
        if |toks| > 1 { assert gaps[1..][0] == gaps[1] != ""; }
      }
      SplitAfterSpace(gaps[0], toks[0] + rest);
      SplitWord(toks[0], rest);
      assert Joined(gaps, toks) == gaps[0] + (toks[0] + rest);
      assert [toks[0]] + toks[1..] == toks;
    }
  }

  /** A joined text starts with its first gap when that gap is not empty, and is empty when all of it is. */
  lemma JoinedStart(gaps: seq<string>, toks: seq<string>)
    requires WordsAndGaps(gaps, toks)
    ensures var j := Joined(gaps, toks); gaps[0] != "" ==> j != "" && j[0] == gaps[0][0]
    ensures var j := Joined(gaps, toks); |toks| == 0 ==> j == gaps[0]
  {
  }

  /** The whitespace around and between the words of `s`: `s` is `Split(s)` laid out with these gaps. */
  function Gaps(s: string): (g: seq<string>)
    ensures |g| == |Split(s)| + 1
    decreases |s|
  {
    if |s| == 0 then [""]
    else if IsSpace(s[0]) then var g := Gaps(s[1..]); [[s[0]] + g[0]] + g[1..]
    else [""] + Gaps(s[WordLength(s)..])
  }

  /** A leading whitespace character joins the first gap. */
  lemma GapsSpaceStep(c: char, g: seq<string>, toks: seq<string>)
    requires IsSpace(c) && WordsAndGaps(g, toks)
    ensures var g2 := [[c] + g[0]] + g[1..];
      && WordsAndGaps(g2, toks) && g2[0] != "" && Joined(g2, toks) == [c] + Joined(g, toks)
  {
    var g2 := [[c] + g[0]] + g[1..];
    assert AllSpace([c] + g[0]) by {
      forall i | 0 <= i < |[c] + g[0]| ensures IsSpace(([c] + g[0])[i]) {
        if i > 0 { assert ([c] + g[0])[i] == g[0][i - 1]; }
      }
    }
    assert forall k :: 0 < k < |g2| ==> g2[k] == g[k];
    assert g2[1..] == g[1..];
  }

  /** A leading word becomes the first token, after an empty first gap. */
  lemma GapsWordStep(x: string, g: seq<string>, toks: seq<string>)
    requires x != "" && NoSpace(x) && WordsAndGaps(g, toks) && (|toks| > 0 ==> g[0] != "")
    ensures WordsAndGaps([""] + g, [x] + toks) && Joined([""] + g, [x] + toks) == x + Joined(g, toks)
  {
    GapsWordStepValid(x, g, toks);
    var g2, toks2 := [""] + g, [x] + toks;
    assert g2[1..] == g && toks2[1..] == toks;
    assert Joined(g2, toks2) == g2[0] + toks2[0] + Joined(g2[1..], toks2[1..]);
    assert g2[0] + toks2[0] == x;
  }

  lemma GapsWordStepValid(x: string, g: seq<string>, toks: seq<string>)
    requires x != "" && NoSpace(x) && WordsAndGaps(g, toks) && (|toks| > 0 ==> g[0] != "")
    ensures WordsAndGaps([""] + g, [x] + toks)
  {
    var g2, toks2 := [""] + g, [x] + toks;
    forall k | 0 <= k < |g2| ensures AllSpace(g2[k]) {
      if k > 0 { assert g2[k] == g[k - 1]; }
    }
    forall k | 0 < k < |toks2| ensures g2[k] != "" {
      assert g2[k] == g[k - 1];
    }
    forall k | 0 <= k < |toks2| ensures toks2[k] != "" && NoSpace(toks2[k]) {
      if k > 0 { assert toks2[k] == toks[k - 1]; }
    }
  }

  /** The layout of a text that starts with whitespace, from the layout of the rest. */
  lemma CoversSpace(s: string)
    requires s != "" && IsSpace(s[0])
    requires WordsAndGaps(Gaps(s[1..]), Split(s[1..])) && Joined(Gaps(s[1..]), Split(s[1..])) == s[1..]
    ensures WordsAndGaps(Gaps(s), Split(s)) && Joined(Gaps(s), Split(s)) == s && Gaps(s)[0] != ""
  {
    var t := s[1..];
    var g, toks := Gaps(t), Split(t);
    assert Gaps(s) == [[s[0]] + g[0]] + g[1..];
    assert Split(s) == toks;
    GapsSpaceStep(s[0], g, toks);
    assert s == [s[0]] + t;
  }

  /** The layout of a text that starts with a word, from the layout of what follows the word. */
  lemma CoversWord(s: string)
    requires s != "" && !IsSpace(s[0])
    requires var t := s[WordLength(s)..];
      && WordsAndGaps(Gaps(t), Split(t)) && Joined(Gaps(t), Split(t)) == t
      && (t != "" && IsSpace(t[0]) ==> Gaps(t)[0] != "")
    ensures WordsAndGaps(Gaps(s), Split(s)) && Joined(Gaps(s), Split(s)) == s
  {
    var n := WordLength(s);
    WordLengthSpec(s);
    var t := s[n..];
    var g, toks := Gaps(t), Split(t);
    assert Gaps(s) == [""] + g;
    assert Split(s) == [s[..n]] + toks;
    assert t != "" ==> t[0] == s[n];
    assert toks != [] ==> t != "";
    GapsWordStep(s[..n], g, toks);
    assert s == s[..n] + t;
  }

  /** Every text is its words laid out with separating whitespace, so with SplitJoined the
      tokens are exactly the maximal non-whitespace runs of `s`, in order. */
  lemma {:induction false} SplitCovers(s: string)
    ensures WordsAndGaps(Gaps(s), Split(s)) && Joined(Gaps(s), Split(s)) == s
    ensures s != "" && IsSpace(s[0]) ==> Gaps(s)[0] != ""
    decreases |s|
  {
    if |s| == 0 {
    } else if IsSpace(s[0]) {
      SplitCovers(s[1..]);
      CoversSpace(s);
    } else {
      SplitCovers(s[WordLength(s)..]);
      CoversWord(s);
    }
  }

  /** The first whitespace-delimited word of `s`, or "" when there is none. */
  function FirstWord(s: string): string
  {
    var toks := Split(s);
    if toks == [] then "" else toks[0]
  }

  /** `s.split()[0]` (or "" for a blank line): the run of non-whitespace characters that starts
      after the leading whitespace, taken up to the next whitespace or the end. */
  lemma FirstWordSpec(s: string)
    ensures NoSpace(FirstWord(s))
    ensures FirstWord(s) == "" <==> AllSpace(s)
    ensures var a := |s| - |TrimLeft(s)|; var w := FirstWord(s);
      && a + |w| <= |s| && AllSpace(s[..a]) && w == s[a..a + |w|]
      && (a + |w| == |s| || IsSpace(s[a + |w|]))
  {
    SplitSpec(s);
    FirstWordRun(s);
  }

  /** Leading whitespace does not change the first word. */
  lemma FirstWordTrimmed(s: string)
    ensures FirstWord(s) == FirstWord(TrimLeft(s))
  {
    var t := TrimLeft(s);
    TrimLeftSpec(s);
    assert s == s[..|s| - |t|] + t;
    SplitAfterSpace(s[..|s| - |t|], t);
  }

  /** The first word of a text that does not start with whitespace is its leading run. */
  lemma FirstWordAtStart(t: string)
    requires t == "" || !IsSpace(t[0])
    ensures FirstWord(t) == t[..WordLength(t)]
  {
    if t != "" {
      assert Split(t) == [t[..WordLength(t)]] + Split(t[WordLength(t)..]);
    }
  }

  /** A run taken from a suffix of `s` is the same run taken from `s` at the suffix's offset. */
  lemma RunInSuffix(s: string, a: nat, n: nat)
    requires a <= |s| && n <= |s| - a && (a + n == |s| || IsSpace(s[a..][n]))
    ensures s[a..][..n] == s[a..a + n] && (a + n == |s| || IsSpace(s[a + n]))
  {
  }

  lemma FirstWordRun(s: string)
    ensures var a := |s| - |TrimLeft(s)|; var w := FirstWord(s);
      && a + |w| <= |s| && AllSpace(s[..a]) && w == s[a..a + |w|]
      && (a + |w| == |s| || IsSpace(s[a + |w|]))
  {
    var t := TrimLeft(s);
    var a := |s| - |t|;
    TrimLeftSpec(s);
    FirstWordTrimmed(s);
    FirstWordAtStart(t);
    var n := WordLength(t);
    WordLengthSpec(t);
    RunInSuffix(s, a, n);
  }

  function LowerChar(c: char): char
  {
    if 'A' <= c <= 'Z' then (c as int + 32) as char else c
  }

  /** `s.lower()` on the ASCII letters: the only characters that lower to the keys compared against. */
  function Lower(s: string): string
  {
    seq(|s|, i requires 0 <= i < |s| => LowerChar(s[i]))
  }

  /** `s.startswith(p)`. */
  predicate StartsWith(s: string, p: string)
  {
    |p| <= |s| && s[..|p|] == p
  }

  function DigitChar(d: nat): char
    requires d < 10
  {
    "0123456789"[d]
  }

  /** `str(n)` of a non-negative Python int: its decimal digits, most significant first. */
  function NatToString(n: nat): (r: string)
    ensures r != []
    ensures forall i :: 0 <= i < |r| ==> '0' <= r[i] <= '9'
    decreases n
  {
    if n < 10 then [DigitChar(n)] else NatToString(n / 10) + [DigitChar(n % 10)]
  }

  /** `str(i)` of a Python int. */
  function IntToString(i: int): string
  {
    if i < 0 then "-" + NatToString(-i) else NatToString(i)
  }
}
