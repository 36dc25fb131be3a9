/** The string operations the watcher and the tracer rely on, written out the
    way Python's `str` methods behave on ASCII text: `strip`, `split()`,
    `splitlines`, `isdigit`, `int`, `in`, `startswith`, `endswith`, and the
    two `os.path` helpers `basename` and `join` (POSIX flavour). Whitespace and
    digits are the ASCII ones; line boundaries are all of Python's. */
module Text {
  import opened Basics

  /** Python's whitespace, restricted to ASCII: \t \n \v \f \r, \x1c-\x1f and space. */
  predicate IsSpace(c: char) {
    ('\t' <= c <= '\r') || ('\U{1C}' <= c <= ' ')
  }

  /** The characters at which `str.splitlines` breaks a line. */
  predicate IsLineBreak(c: char) {
    ('\n' <= c <= '\r') || ('\U{1C}' <= c <= '\U{1E}') ||
    c == '\U{85}' || c == '\U{2028}' || c == '\U{2029}'
  }

  predicate IsDigit(c: char) {
    '0' <= c <= '9'
  }

  predicate StartsWith(s: string, prefix: string) {
    |prefix| <= |s| && s[..|prefix|] == prefix
  }

  predicate EndsWith(s: string, suffix: string) {
    |suffix| <= |s| && s[|s| - |suffix|..] == suffix
  }

  /** Python's `sub in s`. */
  predicate Contains(s: string, sub: string)
    decreases |s|
  {
    StartsWith(s, sub) || (s != [] && Contains(s[1..], sub))
  }

  lemma {:induction false} ContainsInfix(a: string, sub: string, b: string)
    ensures Contains(a + sub + b, sub)
    decreases |a|
  {
    if a == [] {
      assert (a + sub + b)[..|sub|] == sub;
    } else {
      assert (a + sub + b)[1..] == a[1..] + sub + b;
      ContainsInfix(a[1..], sub, b);
    }
  }

  // ---------------------------------------------------------------- strip

  function TrimStart(s: string): (r: string)
    ensures |r| <= |s| && r == s[|s| - |r|..]
    ensures r == [] || !IsSpace(r[0])
  {
    if s != [] && IsSpace(s[0]) then TrimStart(s[1..]) else s
  }

  /** What `TrimStart` drops is whitespace. */
  lemma {:induction false} TrimStartDropsSpace(s: string)
    ensures forall i :: 0 <= i < |s| - |TrimStart(s)| ==> IsSpace(s[i])
  {
    if s != [] && IsSpace(s[0]) {
      TrimStartDropsSpace(s[1..]);
      assert forall i :: 1 <= i < |s| ==> s[i] == s[1..][i - 1];
    }
  }

  function TrimEnd(s: string): (r: string)
    ensures |r| <= |s| && r == s[..|r|]
    ensures r == [] || !IsSpace(r[|r| - 1])
  {
    if s != [] && IsSpace(s[|s| - 1]) then TrimEnd(s[..|s| - 1]) else s
  }

  /** What `TrimEnd` drops is whitespace. */
  lemma {:induction false} TrimEndDropsSpace(s: string)
    ensures forall i :: |TrimEnd(s)| <= i < |s| ==> IsSpace(s[i])
  {
    if s != [] && IsSpace(s[|s| - 1]) {
      TrimEndDropsSpace(s[..|s| - 1]);
    }
  }

  /** Python's `str.strip()`: the text between the leading and the trailing whitespace. */
  function Strip(s: string): (r: string)
    ensures r == [] || (!IsSpace(r[0]) && !IsSpace(r[|r| - 1]))
  {
    TrimEnd(TrimStart(s))
  }

  /** Text without whitespace is left as it is. */
  lemma StripKeeps(s: string)
    requires forall c <- s :: !IsSpace(c)
    ensures Strip(s) == s
  {
    if s != [] {
      assert s[0] in s && s[|s| - 1] in s;
    }
  }

  /** Stripping leaves nothing exactly when the text is all whitespace. */
  lemma StripEmpty(s: string)
    ensures Strip(s) == [] <==> forall c <- s :: IsSpace(c)
  {
    var t := TrimStart(s);
    TrimStartDropsSpace(s);
    TrimEndDropsSpace(t);
    if t != [] {
      assert t[0] == s[|s| - |t|];
    } else {
      forall c | c in s ensures IsSpace(c) {
        var i :| 0 <= i < |s| && s[i] == c;
      }
    }
  }

  /** Stripping a word padded with whitespace on both sides gives back the word. */
  lemma StripPadded(pre: string, w: string, post: string)
    requires forall c <- pre :: IsSpace(c)
    requires forall c <- post :: IsSpace(c)
    requires w != [] && !IsSpace(w[0]) && !IsSpace(w[|w| - 1])
    ensures Strip(pre + w + post) == w
  {
    var s := pre + w + post;
    assert forall i :: 0 <= i < |pre| ==> IsSpace(s[i]) by {
      forall i | 0 <= i < |pre| ensures IsSpace(s[i]) { assert s[i] == pre[i]; }
    }
    assert s[|pre|] == w[0];
    var t := TrimStart(s);
    TrimStartDropsSpace(s);
    assert |s| - |t| == |pre|;
    assert t == w + post;
    assert forall i :: |w| <= i < |t| ==> IsSpace(t[i]) by {
      forall i | |w| <= i < |t| ensures IsSpace(t[i]) { assert t[i] == post[i - |w|]; }
    }
    assert t[|w| - 1] == w[|w| - 1];
    var r := TrimEnd(t);
    TrimEndDropsSpace(t);
    assert |r| == |w|;
    assert r == w;
  }

  // ---------------------------------------------------------------- split()

  /** A token of `str.split()`: non-empty and free of whitespace. */
  predicate IsWord(w: string) {
    w != [] && forall c <- w :: !IsSpace(c)
  }

  /** Length of the leading run of non-whitespace characters. */
  function WordLength(s: string): (n: nat)
    ensures n <= |s|
    ensures n < |s| ==> IsSpace(s[n])
    ensures s != [] && !IsSpace(s[0]) ==> n > 0
  {
    if s == [] || IsSpace(s[0]) then 0 else 1 + WordLength(s[1..])
  }

  /** The leading run holds no whitespace. */
  lemma {:induction false} LeadingWord(s: string)
    requires s != [] && !IsSpace(s[0])
    ensures IsWord(s[..WordLength(s)])
    decreases |s|
  {
    var w := s[..WordLength(s)];
    if |s| > 1 && !IsSpace(s[1]) {
      LeadingWord(s[1..]);
      assert w == [s[0]] + s[1..][..WordLength(s[1..])];
    } else {
      assert WordLength(s[1..]) == 0;
      assert w == [s[0]];
    }
  }

  /** Python's `str.split()` without a separator: the maximal runs of non-whitespace, in order. */
  function Words(s: string): seq<string>
    decreases |s|
  {
    if s == [] then []
    else if IsSpace(s[0]) then Words(s[1..])
    else
      var n := WordLength(s);
      [s[..n]] + Words(s[n..])
  }

  /** Every token of `split()` is a word: non-empty and free of whitespace. */
  lemma {:induction false} WordsAreWords(s: string)
    ensures forall k :: 0 <= k < |Words(s)| ==> IsWord(Words(s)[k])
    decreases |s|
  {
    if s != [] {
      if IsSpace(s[0]) {
        WordsAreWords(s[1..]);
      } else {
        var n := WordLength(s);
        var rest := Words(s[n..]);
        LeadingWord(s);
        WordsAreWords(s[n..]);
        assert Words(s) == [s[..n]] + rest;
      }
    }
  }

  /** Python's `" ".join(ws)`. */
  function JoinWords(ws: seq<string>): string {
    if ws == [] then ""
    else if |ws| == 1 then ws[0]
    else ws[0] + " " + JoinWords(ws[1..])
  }

  /** Words joined by spaces begin and end with a word character. */
  lemma {:induction false} JoinWordsEnds(ws: seq<string>)
    requires ws != [] && forall k :: 0 <= k < |ws| ==> IsWord(ws[k])
    ensures var s := JoinWords(ws); s != [] && !IsSpace(s[0]) && !IsSpace(s[|s| - 1])
  {
    assert ws[0][0] in ws[0];
    if |ws| > 1 {
      JoinWordsEnds(ws[1..]);
    }
  }

  lemma {:induction false} WordLengthOfWord(w: string, rest: string)
    requires forall c <- w :: !IsSpace(c)
    requires rest == [] || IsSpace(rest[0])
    ensures WordLength(w + rest) == |w|
    decreases |w|
  {
    if w != [] {
      assert (w + rest)[1..] == w[1..] + rest;
      WordLengthOfWord(w[1..], rest);
    } else {
      assert (w + rest) == rest;
    }
  }

  /** A word followed by whitespace or by nothing is the first token of `split()`. */
  lemma {:induction false} WordsOfWordThen(w: string, rest: string)
    requires IsWord(w)
    requires rest == [] || IsSpace(rest[0])
    ensures Words(w + rest) == [w] + Words(rest)
  {
    var s := w + rest;
    assert s[0] == w[0];
    WordLengthOfWord(w, rest);
    assert s[..|w|] == w && s[|w|..] == rest;
  }

  /** A lone word splits into itself. */
  lemma WordsOfWord(w: string)
    requires IsWord(w)
    ensures Words(w) == [w]
  {
    WordLengthOfWord(w, "");
    assert w + "" == w;
    assert w[|w|..] == "";
  }

  /** A word, a space and more text: `split()` takes the word and goes on after the space. */
  lemma WordsOfWordSpace(w: string, rest: string)
    requires IsWord(w)
    ensures Words(w + " " + rest) == [w] + Words(rest)
  {
    assert w + " " + rest == w + (" " + rest);
    WordsOfWordThen(w, " " + rest);
    assert (" " + rest)[1..] == rest;
  }

  lemma WordsOfJoinStep(ws: seq<string>)
    requires |ws| > 1 && IsWord(ws[0])
    ensures Words(JoinWords(ws)) == [ws[0]] + Words(JoinWords(ws[1..]))
  {
    WordsOfWordSpace(ws[0], JoinWords(ws[1..]));
  }

  lemma ConsTail<T>(s: seq<T>)
    requires s != []
    ensures [s[0]] + s[1..] == s
  {
  }

  /** Splitting words joined by spaces gives the words back: `split` undoes `" ".join`. */
  lemma {:induction false} WordsOfJoin(ws: seq<string>)
    requires forall k :: 0 <= k < |ws| ==> IsWord(ws[k])
    ensures Words(JoinWords(ws)) == ws
  {
    if |ws| <= 1 {
      WordsOfJoinShort(ws);
    } else {
      WordsOfJoinStep(ws);
      WordsOfJoin(ws[1..]);
      ConsTail(ws);
    }
  }

  lemma WordsOfJoinShort(ws: seq<string>)
    requires |ws| <= 1
    requires forall k :: 0 <= k < |ws| ==> IsWord(ws[k])
    ensures Words(JoinWords(ws)) == ws
  {
    if |ws| == 1 {
      WordsOfWord(ws[0]);
    }
  }

  // ---------------------------------------------------------------- splitlines

  /** Length of the text before the first line break. */
  function LineLength(s: string): (n: nat)
    ensures n <= |s|
    ensures forall i :: 0 <= i < n ==> !IsLineBreak(s[i])
    ensures n < |s| ==> IsLineBreak(s[n])
  {
    if s == [] || IsLineBreak(s[0]) then 0 else 1 + LineLength(s[1..])
  }

  /** Python's `str.splitlines()`: "\r\n" is one break, and a final break opens no empty line. */
  function Lines(s: string): (ls: seq<string>)
    ensures forall k :: 0 <= k < |ls| ==> forall c <- ls[k] :: !IsLineBreak(c)
    ensures s == [] <==> ls == []
    decreases |s|
  {
    if s == [] then []
    else
      var n := LineLength(s);
      if n == |s| then [s]
      else
        var skip := if s[n] == '\r' && n + 1 < |s| && s[n + 1] == '\n' then 2 else 1;
        [s[..n]] + Lines(s[n + skip..])
  }

  /** Each line followed by "\n", as a command's standard output is written. */
  function Terminated(ls: seq<string>): string {
    if ls == [] then "" else ls[0] + "\n" + Terminated(ls[1..])
  }

  lemma {:induction false} LineLengthOfLine(l: string, rest: string)
    requires forall c <- l :: !IsLineBreak(c)
    requires rest != [] && IsLineBreak(rest[0])
    ensures LineLength(l + rest) == |l|
    decreases |l|
  {
    if l != [] {
      assert (l + rest)[1..] == l[1..] + rest;
      LineLengthOfLine(l[1..], rest);
    } else {
      assert l + rest == rest;
    }
  }

  /** A line ended by "\n" is the first line of `splitlines`, which goes on after the break. */
  lemma LinesOfLineThen(l: string, rest: string)
    requires forall c <- l :: !IsLineBreak(c)
    ensures Lines(l + "\n" + rest) == [l] + Lines(rest)
  {
    var s := l + "\n" + rest;
    LineLengthOfLine(l, "\n" + rest);
    assert s == l + ("\n" + rest);
    assert s[|l|] == '\n';
    assert s[..|l|] == l && s[|l| + 1..] == rest;
  }

  /** `splitlines` undoes writing lines one per "\n". */
  lemma {:induction false} LinesOfTerminated(ls: seq<string>)
    requires forall k :: 0 <= k < |ls| ==> forall c <- ls[k] :: !IsLineBreak(c)
    ensures Lines(Terminated(ls)) == ls
  {
    if ls != [] {
      LinesOfLineThen(ls[0], Terminated(ls[1..]));
      LinesOfTerminated(ls[1..]);
      ConsTail(ls);
    }
  }

  // ---------------------------------------------------------------- isdigit / int

  /** Python's `str.isdigit()` on ASCII: non-empty and all digits. */
  predicate IsDigits(s: string) {
    s != [] && forall i :: 0 <= i < |s| ==> IsDigit(s[i])
  }

  /** The decimal value of a string of digits, as `int` reads it. */
  function DigitsValue(s: string): nat
    requires forall i :: 0 <= i < |s| ==> IsDigit(s[i])
  {
    if s == [] then 0
    else
      assert IsDigit(s[|s| - 1]);
      DigitsValue(s[..|s| - 1]) * 10 + (s[|s| - 1] as int - '0' as int)
  }

  /** The decimal rendering of a natural number, as `str` writes it. */
  function Decimal(n: nat): (s: string)
    ensures IsDigits(s)
  {
    var d := ['0' + (n % 10) as char];
    if n < 10 then d else Decimal(n / 10) + d
  }

  /** Reading back a decimal rendering gives the number. */
  lemma {:induction false} DecimalRoundTrip(n: nat)
    ensures DigitsValue(Decimal(n)) == n
  {
    var d := ['0' + (n % 10) as char];
    if n >= 10 {
      var s := Decimal(n / 10) + d;
      assert s[..|s| - 1] == Decimal(n / 10);
      DecimalRoundTrip(n / 10);
    }
  }

  /** Python's `int(s)` on already-stripped text: an optional sign, then digits. */
  function ParseInt(s: string): (r: Option<int>)
    ensures r.Some? <==> IsDigits(s) || (|s| > 1 && (s[0] == '+' || s[0] == '-') && IsDigits(s[1..]))
    ensures IsDigits(s) ==> r == Some(DigitsValue(s))
    ensures |s| > 1 && s[0] == '+' && IsDigits(s[1..]) ==> r == Some(DigitsValue(s[1..]))
    ensures |s| > 1 && s[0] == '-' && IsDigits(s[1..]) ==> r.Some? && r.value == -(DigitsValue(s[1..]) as int)
  {
    if s != [] && (s[0] == '+' || s[0] == '-') && IsDigits(s[1..]) then
      var v: int := DigitsValue(s[1..]);
      Some(if s[0] == '-' then -v else v)
    else if IsDigits(s) then Some(DigitsValue(s))
    else None
  }

  // ---------------------------------------------------------------- os.path

  /** `os.path.basename`: the text after the last '/'. */
  function Basename(p: string): (b: string)
    ensures EndsWith(p, b) && '/' !in b
    ensures |b| < |p| ==> p[|p| - |b| - 1] == '/'
  {
    if p == [] || p[|p| - 1] == '/' then [] else Basename(p[..|p| - 1]) + [p[|p| - 1]]
  }

  /** The basename is the text after position `k` when `k` follows the last '/'. */
  lemma {:induction false} BasenameFrom(p: string, k: nat)
    requires k <= |p| && (k == 0 || p[k - 1] == '/')
    requires forall j :: k <= j < |p| ==> p[j] != '/'
    ensures Basename(p) == p[k..]
    decreases |p|
  {
    if k < |p| {
      var q := p[..|p| - 1];
      assert forall j :: k <= j < |q| ==> q[j] != '/' by {
        forall j | k <= j < |q| ensures q[j] != '/' { assert q[j] == p[j]; }
      }
      assert k == 0 || q[k - 1] == '/';
      BasenameFrom(q, k);
      assert p[k..] == q[k..] + [p[|p| - 1]];
    }
  }

  /** A path that has no '/' is its own basename. */
  lemma BasenameOfPlainName(name: string)
    requires '/' !in name
    ensures Basename(name) == name
  {
    BasenameFrom(name, 0);
  }

  /** After a '/', the basename is what follows it. */
  lemma BasenameAfterSlash(dir: string, name: string)
    requires '/' !in name
    ensures Basename(dir + "/" + name) == name
  {
    var p := dir + "/" + name;
    var k := |dir| + 1;
    assert p[k..] == name;
    assert forall j :: k <= j < |p| ==> p[j] != '/' by {
      forall j | k <= j < |p| ensures p[j] != '/' { assert p[j] == name[j - k]; }
    }
    assert p[k - 1] == '/';
    BasenameFrom(p, k);
  }

  /** The basename of a path ending in `suffix` ends in `suffix`, when `suffix` has no '/'. */
  lemma BasenameKeepsSuffix(p: string, suffix: string)
    requires EndsWith(p, suffix) && '/' !in suffix
    ensures EndsWith(Basename(p), suffix)
  {
    BasenameAtLeast(p, |suffix|);
    var b := Basename(p);
    assert b[|b| - |suffix|..] == p[|p| - |suffix|..];
  }

  lemma {:induction false} BasenameAtLeast(p: string, m: nat)
    requires m <= |p| && '/' !in p[|p| - m..]
    ensures |Basename(p)| >= m
    decreases m
  {
    if m > 0 {
      var q := p[..|p| - 1];
      assert p[|p| - 1] in p[|p| - m..];
      assert q[|q| - (m - 1)..] == p[|p| - m..|p| - 1];
      BasenameAtLeast(q, m - 1);
    }
  }

  /** `os.path.join(dir, name)` for two components. */
  function JoinPath(dir: string, name: string): string {
    if StartsWith(name, "/") then name
    else if dir == [] || EndsWith(dir, "/") then dir + name
    else dir + "/" + name
  }

  /** Joining a directory with a plain file name and taking the basename gives the name back. */
  lemma BasenameOfJoin(dir: string, name: string)
    requires '/' !in name
    ensures Basename(JoinPath(dir, name)) == name
  {
    BasenameOfPlainName(name);
    if dir == [] {
      assert dir + name == name;
    } else if !EndsWith(dir, "/") {
      BasenameAfterSlash(dir, name);
    } else {
      var d := dir[..|dir| - 1];
      assert dir == d + "/";
      assert dir + name == d + "/" + name;
      BasenameAfterSlash(d, name);
    }
  }
}
