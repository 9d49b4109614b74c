/** The parts of Python's `str` that the format checker relies on: the
    whitespace set and argument-less `split()` used to turn a command line into
    an argument vector, the `startswith`/`endswith` prefix tests, and `rfind`. */
module PyStr {

  /** `str.isspace()` for one character; argument-less `str.split()` separates
      at exactly these characters. */
  predicate IsSpace(c: char)
  {
    var n := c as int;
    || 0x09 <= n <= 0x0D
    || 0x1C <= n <= 0x20
    || n == 0x85 || n == 0xA0 || n == 0x1680
    || 0x2000 <= n <= 0x200A
    || n == 0x2028 || n == 0x2029 || n == 0x202F || n == 0x205F || n == 0x3000
  }

  predicate NoSpace(s: string)
  {
    forall i :: 0 <= i < |s| ==> !IsSpace(s[i])
  }

  predicate AllSpace(s: string)
  {
    forall i :: 0 <= i < |s| ==> IsSpace(s[i])
  }

  /** Joining two whitespace-free texts gives a whitespace-free text. */
  lemma NoSpaceConcat(a: string, b: string)
    requires NoSpace(a) && NoSpace(b)
    ensures NoSpace(a + b)
  {
    assert forall i :: 0 <= i < |a + b| ==> (a + b)[i] == if i < |a| then a[i] else b[i - |a|];
  }

  /** `s.startswith(prefix)` */
  predicate StartsWith(s: string, prefix: string)
  {
    |prefix| <= |s| && s[..|prefix|] == prefix
  }

  /** `s.endswith(suffix)` */
  predicate EndsWith(s: string, suffix: string)
  {
    |suffix| <= |s| && s[|s| - |suffix|..] == suffix
  }

  /** The length of the longest whitespace-free prefix of `s`. */
  function TokenLen(s: string): (n: nat)
    ensures n <= |s|
    ensures NoSpace(s[..n])
    ensures n == |s| || IsSpace(s[n])
    decreases |s|
  {
    if |s| == 0 || IsSpace(s[0]) then 0 else 1 + TokenLen(s[1..])
  }

  /** `s.split()`: the maximal runs of non-whitespace characters of `s`, in
      order; leading, trailing and repeated whitespace produce no tokens. */
  function Split(s: string): (tokens: seq<string>)
    ensures forall i :: 0 <= i < |tokens| ==> |tokens[i]| > 0 && NoSpace(tokens[i])
    decreases |s|
  {
    if |s| == 0 then []
    else if IsSpace(s[0]) then Split(s[1..])
    else
      var n := TokenLen(s);
      [s[..n]] + Split(s[n..])
  }

  /** `t` is the first whitespace-separated fragment of `s`: `s` is some
      whitespace, then `t`, then either nothing or whitespace. */
  ghost predicate IsFirstFragment(t: string, s: string)
  {
    && |t| > 0 && NoSpace(t)
    && exists k :: FragmentAt(t, s, k)
  }

  ghost predicate FragmentAt(t: string, s: string, k: int)
  {
    && 0 <= k && k + |t| <= |s|
    && AllSpace(s[..k])
    && s[k..k + |t|] == t
    && (k + |t| == |s| || IsSpace(s[k + |t|]))
  }

  /** Appending after whitespace does not disturb the token that `a` starts with. */
  lemma {:induction false} TokenLenAppend(a: string, b: string)
    requires |a| > 0 && IsSpace(a[|a| - 1])
    ensures TokenLen(a + b) == TokenLen(a)
    decreases |a|
  {
    if !IsSpace(a[0]) {
      assert (a + b)[1..] == a[1..] + b;
      TokenLenAppend(a[1..], b);
    }
  }

  /** Splitting text that follows whitespace (or nothing) splits each side
      separately: no token spans the boundary. */
  lemma {:induction false} SplitAppend(a: string, b: string)
    requires |a| == 0 || IsSpace(a[|a| - 1])
    ensures Split(a + b) == Split(a) + Split(b)
    decreases |a|
  {
    if |a| == 0 {
      assert a + b == b;
    } else if IsSpace(a[0]) {
      assert (a + b)[1..] == a[1..] + b;
      SplitAppend(a[1..], b);
    } else {
      var n := TokenLen(a);
      TokenLenAppend(a, b);
      assert (a + b)[..n] == a[..n];
      assert (a + b)[n..] == a[n..] + b;
      SplitAppend(a[n..], b);
    }
  }

  /** `s.split()` is empty exactly when `s` is empty or all whitespace. */
  lemma {:induction false} SplitEmptyIff(s: string)
    ensures Split(s) == [] <==> AllSpace(s)
    decreases |s|
  {
    if |s| > 0 {
      if IsSpace(s[0]) {
        SplitEmptyIff(s[1..]);
        if AllSpace(s[1..]) {
          assert forall i :: 1 <= i < |s| ==> s[i] == s[1..][i - 1];
        }
      }
    }
  }

  /** `s.split()` returns `[s]` exactly when `s` is non-empty and free of whitespace. */
  lemma {:induction false} SplitSingletonIff(s: string)
    ensures Split(s) == [s] <==> |s| > 0 && NoSpace(s)
  {
    if Split(s) == [s] {
      assert Split(s)[0] == s;
    }
    if |s| > 0 && NoSpace(s) {
      var n := TokenLen(s);
      TokenLenWhole(s);
      assert s[..n] == s;
      assert s[n..] == [];
    }
  }

  /** A whitespace-free text is one token long. */
  lemma {:induction false} TokenLenWhole(s: string)
    requires NoSpace(s)
    ensures TokenLen(s) == |s|
    decreases |s|
  {
    if |s| > 0 {
      assert NoSpace(s[1..]) by {
        assert forall i :: 0 <= i < |s| - 1 ==> s[1..][i] == s[i + 1];
      }
      TokenLenWhole(s[1..]);
    }
  }

  /** The first token of `s.split()` is the first whitespace-separated fragment of `s`. */
  lemma {:induction false} SplitFirst(s: string)
    requires Split(s) != []
    ensures IsFirstFragment(Split(s)[0], s)
    decreases |s|
  {
    var t := Split(s)[0];
    if IsSpace(s[0]) {
      var rest := s[1..];
      assert Split(s) == Split(rest);
      SplitFirst(rest);
      var k :| FragmentAt(t, rest, k);
      FragmentShift(t, s, k);
    } else {
      assert FragmentAt(t, s, 0);
    }
  }

  /** A fragment found after a leading whitespace character is a fragment of
      the whole text, one position further on. */
  lemma FragmentShift(t: string, s: string, k: int)
    requires |s| > 0 && IsSpace(s[0])
    requires FragmentAt(t, s[1..], k)
    ensures FragmentAt(t, s, k + 1)
  {
    var rest := s[1..];
    assert s[..k + 1] == [s[0]] + rest[..k];
    assert s[k + 1..k + 1 + |t|] == rest[k..k + |t|];
  }

  /** `s.rfind(c)`: the index of the last `c` in `s`, or -1 when there is none. */
  function RFind(s: string, c: char): (i: int)
    ensures -1 <= i < |s|
    ensures i >= 0 ==> s[i] == c
    ensures forall j :: i < j < |s| ==> s[j] != c
    decreases |s|
  {
    if |s| == 0 then -1
    else if s[|s| - 1] == c then |s| - 1
    else RFind(s[..|s| - 1], c)
  }

  /** An occurrence of `c` with no `c` after it is the one `rfind` reports. */
  lemma RFindIsLast(s: string, c: char, k: nat)
    requires k < |s| && s[k] == c
    requires forall j :: k < j < |s| ==> s[j] != c
    ensures RFind(s, c) == k
  {
  }

  /** A whitespace-free word followed by a space splits into just that word. */
  lemma {:induction false} SplitWordSpace(w: string)
    requires |w| > 0 && NoSpace(w)
    ensures Split(w + " ") == [w]
  {
    var s := w + " ";
    TokenLenWord(w, " ");
    assert s[..|w|] == w;
    assert s[|w|..] == " ";
    assert Split(" ") == Split(" "[1..]);
  }

  /** A whitespace-free word followed by whitespace is the first token. */
  lemma {:induction false} TokenLenWord(w: string, rest: string)
    requires NoSpace(w) && |rest| > 0 && IsSpace(rest[0])
    ensures TokenLen(w + rest) == |w|
    decreases |w|
  {
    if |w| > 0 {
      assert (w + rest)[1..] == w[1..] + rest;
      TokenLenWord(w[1..], rest);
    } else {
      assert w + rest == rest;
    }
  }
}
