/** The text handling of the graph file loader: trimming a line, splitting it into
  * whitespace-separated tokens, and re-joining tokens into multi-word planet names. */
module LineFormat {

  /** The characters the loader trims from both ends of a line. */
  predicate IsTrimChar(c: char)
  {
    c == ' ' || c == '\t' || c == '\r' || c == '\n'
  }

  /** std::isspace in the "C" locale, which is what `>>` on a string stream skips. */
  predicate IsSpace(c: char)
  {
    IsTrimChar(c) || c == '\U{000B}' || c == '\U{000C}'
  }

  /** The trimmed characters are exactly those of the loader's set " \t\r\n". */
  lemma TrimCharsAre(c: char)
    ensures IsTrimChar(c) <==> c in " \t\r\n"
  {
  }

  /** `>>` skips exactly the C-locale whitespace, which includes every trimmed character. */
  lemma SpaceCharsAre(c: char)
    ensures IsSpace(c) <==> c in " \t\n\U{000B}\U{000C}\r"
    ensures IsTrimChar(c) ==> IsSpace(c)
  {
  }

  ghost predicate AllTrimChars(s: string) {
    forall k :: 0 <= k < |s| ==> IsTrimChar(s[k])
  }

  /** A word as the loader's tokens are: non-empty and free of whitespace. */
  ghost predicate IsWord(w: string) {
    |w| > 0 && forall k :: 0 <= k < |w| ==> !IsSpace(w[k])
  }

  /** find_first_not_of(" \t\r\n"), with npos as |s|. */
  function FirstNonBlank(s: string): (n: nat)
    ensures n <= |s|
    ensures forall k :: 0 <= k < n ==> IsTrimChar(s[k])
    ensures n < |s| ==> !IsTrimChar(s[n])
  {
    if s == [] || !IsTrimChar(s[0]) then 0 else 1 + FirstNonBlank(s[1..])
  }

  /** find_last_not_of(" \t\r\n") + 1: the length of s without its trailing trim characters.
    * On an all-blank s, npos + 1 wraps to 0. */
  function EndOfNonBlank(s: string): (n: nat)
    ensures n <= |s|
    ensures forall k :: n <= k < |s| ==> IsTrimChar(s[k])
    ensures n > 0 ==> !IsTrimChar(s[n - 1])
  {
    if s == [] || !IsTrimChar(s[|s| - 1]) then |s| else EndOfNonBlank(s[..|s| - 1])
  }

  /** The loader's two erase calls: drop the leading trim characters, then the trailing ones. */
  function Trim(s: string): (r: string)
    ensures r == [] || (!IsTrimChar(r[0]) && !IsTrimChar(r[|r| - 1]))
    ensures r == [] <==> AllTrimChars(s)
    ensures exists i :: 0 <= i <= |s| - |r| && s[i..i + |r|] == r && AllTrimChars(s[..i]) && AllTrimChars(s[i + |r|..])
  {
    var t := s[FirstNonBlank(s)..];
    var r := t[..EndOfNonBlank(t)];
    var i := FirstNonBlank(s);
    assert s[i..i + |r|] == r;
    assert AllTrimChars(s[..i]);
    assert s[i + |r|..] == t[|r|..];
    assert AllTrimChars(t[|r|..]);
    r
  }

  /** Trim recovers the middle of any line made of blanks, a blank-free-ended text, and blanks. */
  lemma {:induction false} TrimRecoversMiddle(p: string, m: string, q: string)
    requires AllTrimChars(p) && AllTrimChars(q)
    requires m == [] || (!IsTrimChar(m[0]) && !IsTrimChar(m[|m| - 1]))
    ensures Trim(p + m + q) == m
  {
    var s := p + m + q;
    if m == [] {
      assert AllTrimChars(s) by {
        forall k | 0 <= k < |s| ensures IsTrimChar(s[k]) {
          if k < |p| { assert s[k] == p[k]; } else { assert s[k] == q[k - |p|]; }
        }
      }
    } else {
      FirstNonBlankOfPadded(p, m + q);
      assert s == p + (m + q);
      var t := s[|p|..];
      assert t == m + q;
      EndOfNonBlankOfPadded(m, q);
    }
  }

  lemma {:induction false} FirstNonBlankOfPadded(p: string, u: string)
    requires AllTrimChars(p) && |u| > 0 && !IsTrimChar(u[0])
    ensures FirstNonBlank(p + u) == |p|
    decreases |p|
  {
    if p != [] {
      assert (p + u)[1..] == p[1..] + u;
      FirstNonBlankOfPadded(p[1..], u);
    } else {
      assert p + u == u;
    }
  }

  lemma {:induction false} EndOfNonBlankOfPadded(m: string, q: string)
    requires AllTrimChars(q) && |m| > 0 && !IsTrimChar(m[|m| - 1])
    ensures EndOfNonBlank(m + q) == |m|
    decreases |q|
  {
    if q != [] {
      assert (m + q)[..|m + q| - 1] == m + q[..|q| - 1];
      EndOfNonBlankOfPadded(m, q[..|q| - 1]);
    } else {
      assert m + q == m;
    }
  }

  /** Trimming twice is trimming once. */
  lemma TrimIdempotent(s: string)
    ensures Trim(Trim(s)) == Trim(s)
  {
    TrimRecoversMiddle([], Trim(s), []);
    assert [] + Trim(s) + [] == Trim(s);
  }

  /** The length of the run of non-space characters at the front of s. */
  function WordLength(s: string): (n: nat)
    ensures n <= |s|
    ensures forall k :: 0 <= k < n ==> !IsSpace(s[k])
    ensures n < |s| ==> IsSpace(s[n])
  {
    if s == [] || IsSpace(s[0]) then 0 else 1 + WordLength(s[1..])
  }

  /** The tokens `while (iss >> token)` reads from s: the maximal runs of non-space characters, in order. */
  function Tokens(s: string): (r: seq<string>)
    ensures forall k :: 0 <= k < |r| ==> IsWord(r[k])
    decreases |s|
  {
    if s == [] then []
    else if IsSpace(s[0]) then Tokens(s[1..])
    else
      var n := WordLength(s);
      [s[..n]] + Tokens(s[n..])
  }

  /** The words of ws separated by single spaces, as the name loops build them. */
  function JoinWords(ws: seq<string>): string
  {
    if |ws| == 0 then ""
    else if |ws| == 1 then ws[0]
    else JoinWords(ws[..|ws| - 1]) + " " + ws[|ws| - 1]
  }

  /** A word is one token. */
  lemma WordIsOneToken(w: string)
    requires IsWord(w)
    ensures Tokens(w) == [w]
  {
    assert WordLength(w) == |w| by { WordLengthOfWord(w); }
    assert !IsSpace(w[0]);
    assert w[..|w|] == w && w[|w|..] == [];
  }

  lemma {:induction false} WordLengthOfWord(w: string)
    requires forall k :: 0 <= k < |w| ==> !IsSpace(w[k])
    ensures WordLength(w) == |w|
    decreases |w|
  {
    if w != [] {
      WordLengthOfWord(w[1..]);
    }
  }

  /** A space splits the tokens: those of a, then those of b. */
  lemma {:induction false} TokensSplitAtSpace(a: string, b: string)
    ensures Tokens(a + " " + b) == Tokens(a) + Tokens(b)
    decreases |a|
  {
    var s := a + " " + b;
    if a == [] {
      assert s[1..] == b;
    } else if IsSpace(a[0]) {
      assert s[1..] == a[1..] + " " + b;
      TokensSplitAtSpace(a[1..], b);
    } else {
      var n := WordLength(a);
      WordLengthOfPrefix(a, " " + b);
      assert s == a + (" " + b);
      assert WordLength(s) == n;
      assert s[..n] == a[..n];
      assert s[n..] == a[n..] + " " + b;
      TokensSplitAtSpace(a[n..], b);
    }
  }

  lemma {:induction false} WordLengthOfPrefix(a: string, u: string)
    requires |u| > 0 && IsSpace(u[0])
    ensures WordLength(a + u) == WordLength(a)
    decreases |a|
  {
    if a == [] {
      assert a + u == u;
    } else if !IsSpace(a[0]) {
      assert (a + u)[1..] == a[1..] + u;
      WordLengthOfPrefix(a[1..], u);
    }
  }

  /** Splitting a join of words gives the words back. */
  lemma {:induction false} TokensOfJoinWords(ws: seq<string>)
    requires forall k :: 0 <= k < |ws| ==> IsWord(ws[k])
    ensures Tokens(JoinWords(ws)) == ws
    decreases |ws|
  {
    if |ws| == 1 {
      WordIsOneToken(ws[0]);
    } else if |ws| > 1 {
      var init := ws[..|ws| - 1];
      TokensOfJoinWords(init);
      TokensSplitAtSpace(JoinWords(init), ws[|ws| - 1]);
      WordIsOneToken(ws[|ws| - 1]);
      assert init + [ws[|ws| - 1]] == ws;
    }
  }

  /** A join of words neither starts nor ends with a trim character. */
  lemma {:induction false} JoinWordsEnds(ws: seq<string>)
    requires |ws| > 0 && forall k :: 0 <= k < |ws| ==> IsWord(ws[k])
    ensures |JoinWords(ws)| > 0 && |ws[0]| > 0 && |ws[|ws| - 1]| > 0
    ensures JoinWords(ws)[0] == ws[0][0]
    ensures JoinWords(ws)[|JoinWords(ws)| - 1] == ws[|ws| - 1][|ws[|ws| - 1]| - 1]
    decreases |ws|
  {
    if |ws| > 1 {
      JoinWordsEnds(ws[..|ws| - 1]);
    }
  }

  /** Joining a + b is joining a and b with a space between. */
  lemma {:induction false} JoinWordsAppend(a: seq<string>, b: seq<string>)
    requires |a| > 0 && |b| > 0
    ensures JoinWords(a + b) == JoinWords(a) + " " + JoinWords(b)
    decreases |b|
  {
    if |b| == 1 {
      assert (a + b)[..|a + b| - 1] == a;
    } else {
      var b' := b[..|b| - 1];
      assert (a + b)[..|a + b| - 1] == a + b';
      JoinWordsAppend(a, b');
    }
  }

  /** The word count of each name in an edge line of n tokens: (n - 2) / 2, rounded down. */
  function NameTokenCount(n: nat): (k: nat)
    requires n >= 2
    ensures 2 * k <= n - 2 < 2 * k + 2
  {
    (n - 2) / 2
  }

  /** The from-name and the to-name of an edge line's tokens: the first NameTokenCount words,
    * and the words from there up to the two numbers. */
  function SplitNames(tokens: seq<string>): (r: (string, string))
    requires |tokens| >= 2
    ensures (forall k :: 0 <= k < |tokens| ==> IsWord(tokens[k])) ==>
      && Tokens(r.0) == tokens[..NameTokenCount(|tokens|)]
      && Tokens(r.1) == tokens[NameTokenCount(|tokens|)..|tokens| - 2]
  {
    var k := NameTokenCount(|tokens|);
    TokensOfWordsJoined(tokens[..k]);
    TokensOfWordsJoined(tokens[k..|tokens| - 2]);
    (JoinWords(tokens[..k]), JoinWords(tokens[k..|tokens| - 2]))
  }

  /** TokensOfJoinWords, for any sequence: it holds whenever every element is a word. */
  lemma TokensOfWordsJoined(ws: seq<string>)
    ensures (forall k :: 0 <= k < |ws| ==> IsWord(ws[k])) ==> Tokens(JoinWords(ws)) == ws
  {
    if forall k :: 0 <= k < |ws| ==> IsWord(ws[k]) {
      TokensOfJoinWords(ws);
    }
  }

  /** Two names of equal word count survive being written into one edge line and split again. */
  lemma EdgeLineRoundTrip(from: seq<string>, to: seq<string>, distance: string, risk: string)
    requires |from| == |to| > 0
    requires forall k :: 0 <= k < |from| ==> IsWord(from[k])
    requires forall k :: 0 <= k < |to| ==> IsWord(to[k])
    requires IsWord(distance) && IsWord(risk)
    ensures Tokens(JoinWords(from + to + [distance, risk])) == from + to + [distance, risk]
    ensures SplitNames(from + to + [distance, risk]) == (JoinWords(from), JoinWords(to))
  {
    var ts := from + to + [distance, risk];
    forall k | 0 <= k < |ts| ensures IsWord(ts[k]) {
      if k < |from| { assert ts[k] == from[k]; }
      else if k < |from| + |to| { assert ts[k] == to[k - |from|]; }
    }
    TokensOfJoinWords(ts);
    assert NameTokenCount(|ts|) == |from|;
    assert ts[..|from|] == from;
    assert ts[|from|..|ts| - 2] == to;
  }

  /** The `iss >> token` loop: reads the tokens of line one at a time. */
  method Tokenize(line: string) returns (tokens: seq<string>)
    ensures tokens == Tokens(line)
  {
    tokens := [];
    var i := 0;
    while i < |line|
      invariant 0 <= i <= |line|
      invariant tokens + Tokens(line[i..]) == Tokens(line)
    {
      if IsSpace(line[i]) {
        assert line[i..][1..] == line[i + 1..];
        i := i + 1;
      } else {
        var j := i;
        while j < |line| && !IsSpace(line[j])
          invariant i <= j <= |line|
          invariant forall k :: i <= k < j ==> !IsSpace(line[k])
        {
          j := j + 1;
        }
        WordAt(line, i, j);
        tokens := tokens + [line[i..j]];
        i := j;
      }
    }
    assert line[|line|..] == [];
  }

  /** A maximal non-space run s[i..j] is the next token of s[i..]. */
  lemma WordAt(s: string, i: nat, j: nat)
    requires i < j <= |s|
    requires forall k :: i <= k < j ==> !IsSpace(s[k])
    requires j == |s| || IsSpace(s[j])
    ensures Tokens(s[i..]) == [s[i..j]] + Tokens(s[j..])
  {
    WordLengthAt(s, i, j);
    assert s[i..][..j - i] == s[i..j];
    assert s[i..][j - i..] == s[j..];
  }

  lemma WordLengthAt(s: string, i: nat, j: nat)
    requires i <= j <= |s|
    requires forall k :: i <= k < j ==> !IsSpace(s[k])
    requires j == |s| || IsSpace(s[j])
    ensures WordLength(s[i..]) == j - i
  {
  }

  /** The loop that builds a name: tokens[lo..hi] joined by single spaces. */
  method JoinRange(tokens: seq<string>, lo: nat, hi: nat) returns (name: string)
    requires lo <= hi <= |tokens|
    ensures name == JoinWords(tokens[lo..hi])
  {
    name := "";
    var i := lo;
    while i < hi
      invariant lo <= i <= hi
      invariant name == JoinWords(tokens[lo..i])
    {
      if i > lo {
        name := name + " ";
      }
      name := name + tokens[i];
      assert tokens[lo..i + 1][..i - lo] == tokens[lo..i];
      i := i + 1;
    }
  }
}
