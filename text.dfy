/** Python string operations shared by both core files: `str.strip()`,
    `re.sub(r"\s+", " ", s)`, `str.split()`, `" ".join(...)` and the `in`
    substring test, with the facts that relate them. */
module Text {
  import opened Chars

  predicate NoSpace(s: string)
  {
    forall i :: 0 <= i < |s| ==> !IsSpace(s[i])
  }

  predicate AllSpace(s: string)
  {
    forall i :: 0 <= i < |s| ==> IsSpace(s[i])
  }

  /** Leading whitespace removed (`str.lstrip()`). */
  function TrimStart(s: string): (r: string)
    ensures |r| <= |s| && r == s[|s| - |r|..]
    ensures r == [] || !IsSpace(r[0])
    ensures forall i :: 0 <= i < |s| - |r| ==> IsSpace(s[i])
    decreases |s|
  {
    if s != [] && IsSpace(s[0]) then TrimStart(s[1..]) else s
  }

  /** Trailing whitespace removed (`str.rstrip()`). */
  function TrimEnd(s: string): (r: string)
    ensures |r| <= |s| && r == s[..|r|]
    ensures r == [] || !IsSpace(r[|r| - 1])
    ensures forall i :: |r| <= i < |s| ==> IsSpace(s[i])
    decreases |s|
  {
    if s != [] && IsSpace(s[|s| - 1]) then TrimEnd(s[..|s| - 1]) else s
  }

  /** `str.strip()`: the input without its leading and trailing whitespace. */
  function Strip(s: string): (r: string)
    ensures |r| <= |s|
    ensures r == [] || (!IsSpace(r[0]) && !IsSpace(r[|r| - 1]))
  {
    TrimEnd(TrimStart(s))
  }

  /** `re.sub(r"\s+", " ", s)`: every maximal run of whitespace becomes one space. */
  function CollapseSpaces(s: string): (r: string)
    decreases |s|
  {
    if s == [] then []
    else if IsSpace(s[0]) then " " + CollapseSpaces(TrimStart(s))
    else [s[0]] + CollapseSpaces(s[1..])
  }

  /** Length of the leading run of non-whitespace characters. */
  function WordLength(t: string): (n: nat)
    ensures n <= |t| && NoSpace(t[..n]) && (n == |t| || IsSpace(t[n]))
    ensures t != [] && !IsSpace(t[0]) ==> n >= 1
    decreases |t|
  {
    if t == [] || IsSpace(t[0]) then 0 else 1 + WordLength(t[1..])
  }

  /** `str.split()` with no argument: the maximal runs of non-whitespace, in order. */
  function Split(s: string): (ws: seq<string>)
    ensures Words(ws)
    decreases |s|
  {
    var t := TrimStart(s);
    if t == [] then []
    else
      var n := WordLength(t);
      assert n >= 1;
      var w := t[..n];
      var rest := Split(t[n..]);
      assert Words([w] + rest) by {
        forall k | 0 <= k < |[w] + rest|
          ensures ([w] + rest)[k] != [] && NoSpace(([w] + rest)[k])
        {
          if k > 0 {
            assert ([w] + rest)[k] == rest[k - 1];
          }
        }
      }
      [w] + rest
  }

  /** `" ".join(ws)`. */
  function JoinWords(ws: seq<string>): string
  {
    if ws == [] then []
    else if |ws| == 1 then ws[0]
    else ws[0] + " " + JoinWords(ws[1..])
  }

  predicate StartsWith(s: string, p: string)
  {
    |p| <= |s| && s[..|p|] == p
  }

  /** Python's `p in s` for two strings. */
  predicate Contains(s: string, p: string)
    decreases |s|
  {
    StartsWith(s, p) || (s != [] && Contains(s[1..], p))
  }

  /** The single-spaced shape: no whitespace at either end, every whitespace
      character is a plain space, and no two of them are adjacent. */
  predicate SingleSpaced(r: string)
  {
    && (r == [] || (!IsSpace(r[0]) && !IsSpace(r[|r| - 1])))
    && (forall i :: 0 <= i < |r| && IsSpace(r[i]) ==> r[i] == ' ')
    && (forall i :: 0 <= i < |r| - 1 ==> !IsSpace(r[i]) || !IsSpace(r[i + 1]))
  }

  predicate Words(ws: seq<string>)
  {
    forall k :: 0 <= k < |ws| ==> ws[k] != [] && NoSpace(ws[k])
  }

  // ---------------------------------------------------------------------------
  // Lemmas

  lemma {:induction false} TrimEndAppendSpaces(a: string, b: string)
    requires AllSpace(b)
    ensures TrimEnd(a + b) == TrimEnd(a)
    decreases |b|
  {
    if b != [] {
      assert (a + b)[..|a + b| - 1] == a + b[..|b| - 1];
      TrimEndAppendSpaces(a, b[..|b| - 1]);
    } else {
      assert a + b == a;
    }
  }

  lemma {:induction false} TrimEndAppend(a: string, b: string)
    requires !AllSpace(b)
    ensures TrimEnd(a + b) == a + TrimEnd(b)
    decreases |b|
  {
    var i :| 0 <= i < |b| && !IsSpace(b[i]);
    if IsSpace(b[|b| - 1]) {
      var b' := b[..|b| - 1];
      assert b'[i] == b[i];
      assert (a + b)[..|a + b| - 1] == a + b';
      TrimEndAppend(a, b');
    } else {
      assert (a + b)[|a + b| - 1] == b[|b| - 1];
    }
  }

  lemma {:induction false} TrimStartOfAllSpace(b: string)
    requires AllSpace(b)
    ensures TrimStart(b) == []
    decreases |b|
  {
    if b != [] {
      TrimStartOfAllSpace(b[1..]);
    }
  }

  lemma {:induction false} TrimStartAppendSpaces(a: string, b: string)
    requires AllSpace(a)
    requires b == [] || !IsSpace(b[0])
    ensures TrimStart(a + b) == b
    decreases |a|
  {
    if a == [] {
      assert a + b == b;
    } else {
      assert (a + b)[1..] == a[1..] + b;
      TrimStartAppendSpaces(a[1..], b);
    }
  }

  lemma {:induction false} CollapseAppendWord(w: string, x: string)
    requires NoSpace(w)
    ensures CollapseSpaces(w + x) == w + CollapseSpaces(x)
    decreases |w|
  {
    if w == [] {
      assert w + x == x;
    } else {
      assert (w + x)[1..] == w[1..] + x;
      CollapseAppendWord(w[1..], x);
    }
  }

  lemma TrimStartEmptyIff(s: string)
    ensures (TrimStart(s) == []) == AllSpace(s)
  {
    var r := TrimStart(s);
    if r != [] {
      assert s[|s| - |r|] == r[0];
    }
  }

  lemma JoinWordsCons(w: string, ws: seq<string>)
    requires ws != []
    ensures JoinWords([w] + ws) == w + " " + JoinWords(ws)
  {
    assert ([w] + ws)[1..] == ws;
  }

  lemma WordThenSpaces(w: string, rest: string)
    requires w != [] && NoSpace(w) && AllSpace(rest)
    ensures CollapseSpaces(TrimEnd(w + rest)) == w
  {
    TrimEndAppendSpaces(w, rest);
    assert TrimEnd(w) == w;
    CollapseAppendWord(w, []);
    assert w + [] == w;
  }

  lemma WordThenMore(w: string, rest: string)
    requires NoSpace(w) && rest != [] && IsSpace(rest[0]) && !AllSpace(rest)
    ensures CollapseSpaces(TrimEnd(w + rest)) == w + " " + CollapseSpaces(Strip(rest))
  {
    TrimEndAppend(w, rest);
    CollapseAppendWord(w, TrimEnd(rest));
    SpacesThenMore(rest);
  }

  lemma SpacesThenMore(rest: string)
    requires rest != [] && IsSpace(rest[0]) && !AllSpace(rest)
    ensures CollapseSpaces(TrimEnd(rest)) == " " + CollapseSpaces(Strip(rest))
  {
    var rest' := TrimStart(rest);
    TrimStartEmptyIff(rest);
    var k := |rest| - |rest'|;
    var spaces := rest[..k];
    assert rest == spaces + rest';
    assert AllSpace(spaces);
    TrimStartEmptyIff(rest');
    TrimEndAppend(spaces, rest');
    var y := TrimEnd(rest');
    assert y != [] by {
      assert !IsSpace(rest'[0]);
    }
    TrimStartAppendSpaces(spaces, y);
    assert (spaces + y)[0] == spaces[0];
  }

  /** Stripping and collapsing whitespace is the same as splitting into words
      and joining them with single spaces. */
  lemma {:induction false} CollapseStripIsJoinSplit(s: string)
    ensures CollapseSpaces(Strip(s)) == JoinWords(Split(s))
    decreases |s|
  {
    var t := TrimStart(s);
    if t != [] {
      var n := WordLength(t);
      var w, rest := t[..n], t[n..];
      assert t == w + rest;
      assert Split(s) == [w] + Split(rest);
      TrimStartEmptyIff(rest);
      if AllSpace(rest) {
        WordThenSpaces(w, rest);
      } else {
        assert rest[0] == t[n];
        WordThenMore(w, rest);
        CollapseStripIsJoinSplit(rest);
        JoinWordsCons(w, Split(rest));
      }
    }
  }

  lemma {:induction false} WordLengthAppend(w: string, x: string)
    requires NoSpace(w)
    requires x == [] || IsSpace(x[0])
    ensures WordLength(w + x) == |w|
    decreases |w|
  {
    if w == [] {
      assert w + x == x;
    } else {
      assert (w + x)[0] == w[0] && !IsSpace(w[0]);
      assert (w + x)[1..] == w[1..] + x;
      assert NoSpace(w[1..]) by {
        forall i | 0 <= i < |w[1..]|
          ensures !IsSpace(w[1..][i])
        {
          assert w[1..][i] == w[i + 1];
        }
      }
      WordLengthAppend(w[1..], x);
    }
  }

  lemma SplitAfterSpaces(a: string, b: string)
    requires AllSpace(a)
    requires b == [] || !IsSpace(b[0])
    ensures Split(a + b) == Split(b)
  {
    TrimStartAppendSpaces(a, b);
    TrimStartAppendSpaces([], b);
    assert [] + b == b;
  }

  lemma SplitWordThenRest(w: string, x: string)
    requires w != [] && NoSpace(w)
    requires x == [] || IsSpace(x[0])
    ensures Split(w + x) == [w] + Split(x)
  {
    var j := w + x;
    TrimStartAppendSpaces([], j);
    assert [] + j == j;
    WordLengthAppend(w, x);
    assert j[..|w|] == w && j[|w|..] == x;
  }

  /** Splitting single-spaced words recovers them. */
  lemma {:induction false} SplitJoinRoundTrip(ws: seq<string>)
    requires Words(ws)
    ensures Split(JoinWords(ws)) == ws
    decreases |ws|
  {
    if |ws| == 1 {
      SplitWordThenRest(ws[0], []);
      assert ws[0] + [] == ws[0];
      assert Split([]) == [];
    } else if |ws| > 1 {
      var w, tail := ws[0], ws[1..];
      assert Words(tail);
      var rest := JoinWords(tail);
      JoinWordsShape(tail);
      calc {
        Split(JoinWords(ws));
        { assert JoinWords(ws) == w + (" " + rest); }
        Split(w + (" " + rest));
        { SplitWordThenRest(w, " " + rest); }
        [w] + Split(" " + rest);
        { SplitAfterSpaces(" ", rest); }
        [w] + Split(rest);
        { SplitJoinRoundTrip(tail); }
        [w] + tail;
        ws;
      }
    }
  }

  /** Joined words are single-spaced and non-empty exactly when there is a word. */
  lemma {:induction false} JoinWordsShape(ws: seq<string>)
    requires Words(ws)
    ensures SingleSpaced(JoinWords(ws))
    ensures (JoinWords(ws) == []) == (ws == [])
    ensures ws != [] ==> JoinWords(ws)[0] == ws[0][0]
    decreases |ws|
  {
    if |ws| > 1 {
      JoinWordsShape(ws[1..]);
      var w, rest := ws[0], JoinWords(ws[1..]);
      var j := w + " " + rest;
      forall i | 0 <= i < |j| - 1
        ensures !IsSpace(j[i]) || !IsSpace(j[i + 1])
      {
        if i < |w| - 1 {
        } else if i == |w| - 1 {
        } else if i == |w| {
          assert j[i + 1] == rest[0];
        } else {
          assert j[i] == rest[i - |w| - 1] && j[i + 1] == rest[i - |w|];
        }
      }
      forall i | 0 <= i < |j| && IsSpace(j[i])
        ensures j[i] == ' '
      {
        if i > |w| {
          assert j[i] == rest[i - |w| - 1];
        }
      }
    }
  }

  /** Python's `str.split()` finds a word in any text with a non-space character. */
  lemma {:induction false} SplitEmptyIffBlank(s: string)
    ensures (Split(s) == []) == AllSpace(s)
  {
    var t := TrimStart(s);
    assert (Split(s) == []) == (t == []);
    if t != [] {
      assert t[0] == s[|s| - |t|];
    }
  }

  lemma {:induction false} StripEmptyIffBlank(s: string)
    ensures (Strip(s) == []) == AllSpace(s)
  {
    var t := TrimStart(s);
    assert s == s[..|s| - |t|] + t;
    if t == [] {
      assert AllSpace(s);
    } else {
      assert !IsSpace(s[|s| - |t|]);
      assert !IsSpace(t[0]);
      assert TrimEnd(t) != [];
    }
  }

  /** `p in s` holds exactly when `p` occurs at some position of `s`. */
  lemma {:induction false} ContainsAt(s: string, p: string, i: nat)
    requires i + |p| <= |s| && s[i..i + |p|] == p
    ensures Contains(s, p)
    decreases i
  {
    if i > 0 {
      assert s[1..][i - 1..i - 1 + |p|] == p;
      ContainsAt(s[1..], p, i - 1);
    }
  }

  lemma {:induction false} ContainsWitness(s: string, p: string) returns (i: nat)
    requires Contains(s, p)
    ensures i + |p| <= |s| && s[i..i + |p|] == p
    decreases |s|
  {
    if StartsWith(s, p) {
      i := 0;
    } else {
      var j := ContainsWitness(s[1..], p);
      i := j + 1;
      assert s[i..i + |p|] == s[1..][j..j + |p|];
    }
  }

  /** Substring containment is transitive. */
  lemma ContainsTransitive(s: string, p: string, q: string)
    requires Contains(s, p) && Contains(p, q)
    ensures Contains(s, q)
  {
    var i := ContainsWitness(s, p);
    var j := ContainsWitness(p, q);
    assert s[i + j..i + j + |q|] == q by {
      forall k | 0 <= k < |q|
        ensures s[i + j + k] == q[k]
      {
        assert q[k] == p[j + k] == s[i + j + k];
      }
    }
    ContainsAt(s, q, i + j);
  }

  /** Every non-whitespace character of `s` satisfies `P`. */
  predicate NonSpaceSatisfy(s: string, P: char -> bool)
  {
    forall i :: 0 <= i < |s| && !IsSpace(s[i]) ==> P(s[i])
  }

  /** Every character of every word satisfies `P`. */
  predicate WordCharsSatisfy(ws: seq<string>, P: char -> bool)
  {
    forall k, j :: 0 <= k < |ws| && 0 <= j < |ws[k]| ==> P(ws[k][j])
  }

  lemma WordCharsCons(w: string, rest: seq<string>, P: char -> bool)
    requires forall j :: 0 <= j < |w| ==> P(w[j])
    requires WordCharsSatisfy(rest, P)
    ensures WordCharsSatisfy([w] + rest, P)
  {
    var ws := [w] + rest;
    forall k, j | 0 <= k < |ws| && 0 <= j < |ws[k]|
      ensures P(ws[k][j])
    {
      if k > 0 {
        assert ws[k] == rest[k - 1];
      }
    }
  }

  /** The words `str.split()` returns are made of the input's non-whitespace characters. */
  lemma {:induction false} SplitChars(s: string, P: char -> bool)
    requires NonSpaceSatisfy(s, P)
    ensures WordCharsSatisfy(Split(s), P)
    decreases |s|
  {
    var t := TrimStart(s);
    if t != [] {
      var n := WordLength(t);
      var w := t[..n];
      var u := t[n..];
      NonSpaceSuffix(s, |s| - |t|, P);
      NonSpaceSuffix(t, n, P);
      assert forall j :: 0 <= j < |w| ==> P(w[j]) by {
        forall j | 0 <= j < |w|
          ensures P(w[j])
        {
          assert w[j] == t[j] && !IsSpace(w[j]);
        }
      }
      SplitChars(u, P);
      WordCharsCons(w, Split(u), P);
      assert Split(s) == [w] + Split(u);
    }
  }

  lemma NonSpaceSuffix(s: string, k: nat, P: char -> bool)
    requires k <= |s| && NonSpaceSatisfy(s, P)
    ensures NonSpaceSatisfy(s[k..], P)
  {
    forall j | 0 <= j < |s[k..]| && !IsSpace(s[k..][j])
      ensures P(s[k..][j])
    {
      assert s[k..][j] == s[k + j];
    }
  }

  /** `" ".join(ws)` adds nothing but spaces to the characters of the words. */
  lemma {:induction false} JoinChars(ws: seq<string>, P: char -> bool)
    requires WordCharsSatisfy(ws, P)
    ensures forall i :: 0 <= i < |JoinWords(ws)| ==> JoinWords(ws)[i] == ' ' || P(JoinWords(ws)[i])
    decreases |ws|
  {
    if |ws| > 1 {
      var tail := ws[1..];
      assert WordCharsSatisfy(tail, P) by {
        forall k, j | 0 <= k < |tail| && 0 <= j < |tail[k]|
          ensures P(tail[k][j])
        {
          assert tail[k] == ws[k + 1];
        }
      }
      JoinChars(tail, P);
      var r := JoinWords(ws);
      assert r == ws[0] + " " + JoinWords(tail);
      forall i | 0 <= i < |r|
        ensures r[i] == ' ' || P(r[i])
      {
        if i < |ws[0]| {
          assert r[i] == ws[0][i];
        } else if i > |ws[0]| {
          assert r[i] == JoinWords(tail)[i - |ws[0]| - 1];
        }
      }
    } else if |ws| == 1 {
      assert forall i :: 0 <= i < |ws[0]| ==> P(ws[0][i]);
    }
  }
}
