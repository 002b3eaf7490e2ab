/** The monitor's command-line tokenizer: the first half of `runcmd`
    (kern/monitor.c:118-137). A command line is a NUL-terminated C string in a
    character buffer; the tokenizer overwrites the whitespace it passes with NUL
    in place and records the start of every maximal run of non-whitespace in a
    fixed `argv` array of MAXARGS slots, the last used one holding a null
    sentinel. */
module CommandLine {

  const NUL: char := '\0'

  /** MAXARGS (kern/monitor.c:109): the size of `argv`, one slot of which is
      always reserved for the null sentinel. */
  const MaxArgs: nat := 16

  /** The null pointer stored as the sentinel in `argv`; every real entry is a
      buffer index and so is never negative. */
  const NullArg: int := -1

  /** Membership in WHITESPACE (kern/monitor.c:108). */
  predicate IsWhite(c: char) {
    c == '\t' || c == '\r' || c == '\n' || c == ' '
  }

  /** A character that ends an argument: whitespace or the string's NUL. */
  predicate IsDelim(c: char) {
    c == NUL || IsWhite(c)
  }

  /** The length of the C string held in `s`: the index of its first NUL. */
  function Strlen(s: seq<char>): (n: nat)
    requires NUL in s
    ensures n < |s| && s[n] == NUL
    ensures forall j :: 0 <= j < n ==> s[j] != NUL
  {
    if s[0] == NUL then 0 else 1 + Strlen(s[1..])
  }

  /** An argument starts at `i`: a character that is neither whitespace nor NUL,
      at the very start of the line or right after whitespace. */
  predicate IsTokenStart(s: seq<char>, i: nat)
    requires i < |s|
  {
    !IsDelim(s[i]) && (i == 0 || IsWhite(s[i - 1]))
  }

  /** The argument starts among the first `i` characters of `s`, in order. */
  function StartsBelow(s: seq<char>, i: nat): (r: seq<nat>)
    requires i <= |s|
    ensures forall k :: 0 <= k < |r| ==> r[k] < i && IsTokenStart(s, r[k])
  {
    if i == 0 then []
    else if IsTokenStart(s, i - 1) then StartsBelow(s, i - 1) + [i - 1]
    else StartsBelow(s, i - 1)
  }

  /** Every argument start of the C string in `s`, left to right: the reference
      definition of what the tokenizer records. */
  function TokenStarts(s: seq<char>): seq<nat>
    requires NUL in s
  {
    StartsBelow(s, Strlen(s))
  }

  /** Where the scan for the NUL stops: the end of the line, or, when the line
      holds more than MAXARGS-1 arguments, the start of the one that does not
      fit (kern/monitor.c:129-131). */
  function StopIndex(s: seq<char>): nat
    requires NUL in s
  {
    var toks := TokenStarts(s);
    if |toks| >= MaxArgs then toks[MaxArgs - 1] else Strlen(s)
  }

  /** The buffer after the tokenizer has scanned up to `stop`: every whitespace
      character before `stop` is NUL, everything else is as it was. */
  function Blanked(s: seq<char>, stop: nat): seq<char>
  {
    seq(|s|, j requires 0 <= j < |s| => if j < stop && IsWhite(s[j]) then NUL else s[j])
  }

  /** The index of the first delimiter at or after `i`: where the argument
      starting at `i` ends. */
  function TokenEnd(s: seq<char>, i: nat): (e: nat)
    requires NUL in s && i <= Strlen(s)
    ensures i <= e <= Strlen(s) && IsDelim(s[e])
    ensures forall j :: i <= j < e ==> !IsDelim(s[j])
    decreases Strlen(s) - i
  {
    if IsDelim(s[i]) then i else TokenEnd(s, i + 1)
  }

  /** The text of the argument that starts at `i`. */
  function TokenText(s: seq<char>, i: nat): seq<char>
    requires NUL in s && i <= Strlen(s)
  {
    s[i..TokenEnd(s, i)]
  }

  /** The C string that starts at index `i` of `t`, up to (not including) the
      next NUL: what a `char *` into the buffer denotes. */
  function CStrAt(t: seq<char>, i: nat): (r: seq<char>)
    requires i < |t| && NUL in t[i..]
    ensures i + |r| < |t| && t[i + |r|] == NUL
    ensures forall j :: 0 <= j < |r| ==> r[j] == t[i + j] && r[j] != NUL
    decreases |t| - i
  {
    if t[i] == NUL then []
    else
      assert NUL in t[i + 1..] by {
        var k :| i <= k < |t| && t[k] == NUL;
        assert t[i + 1..][k - i - 1] == NUL;
      }
      [t[i]] + CStrAt(t, i + 1)
  }

  /** The starts are recorded left to right. */
  lemma {:induction false} StartsBelowIncreasing(s: seq<char>, i: nat)
    requires i <= |s|
    ensures forall k, l :: 0 <= k < l < |StartsBelow(s, i)| ==> StartsBelow(s, i)[k] < StartsBelow(s, i)[l]
  {
    if i > 0 {
      var p := StartsBelow(s, i - 1);
      var r := StartsBelow(s, i);
      StartsBelowIncreasing(s, i - 1);
      forall k, l | 0 <= k < l < |r| ensures r[k] < r[l] {
        assert r[k] == p[k];
        if l < |p| {
          assert r[l] == p[l];
        } else {
          assert r[l] == i - 1;
        }
      }
    }
  }

  /** No argument start below `i` is missed. */
  lemma {:induction false} StartsBelowComplete(s: seq<char>, i: nat, j: nat)
    requires j < i <= |s| && IsTokenStart(s, j)
    ensures j in StartsBelow(s, i)
  {
    if j < i - 1 {
      StartsBelowComplete(s, i - 1, j);
    }
  }

  /** Scanning further never changes the argument starts already found. */
  lemma {:induction false} StartsBelowPrefix(s: seq<char>, i: nat, m: nat)
    requires i <= m <= |s|
    ensures |StartsBelow(s, i)| <= |StartsBelow(s, m)|
    ensures StartsBelow(s, m)[..|StartsBelow(s, i)|] == StartsBelow(s, i)
    decreases m - i
  {
    if i < m {
      StartsBelowPrefix(s, i, m - 1);
    }
  }

  /** A line has no arguments exactly when every character before its NUL is
      whitespace (kern/monitor.c:121-126, 140-141). */
  lemma {:induction false} NoTokensIffBlank(s: seq<char>)
    requires NUL in s
    ensures |TokenStarts(s)| == 0 <==> forall j :: 0 <= j < Strlen(s) ==> IsWhite(s[j])
  {
    var n := Strlen(s);
    if |TokenStarts(s)| == 0 {
      forall j | 0 <= j < n ensures IsWhite(s[j]) {
        NoTokenBefore(s, j);
      }
    } else {
      var t := TokenStarts(s)[0];
      assert IsTokenStart(s, t) && t < n;
    }
  }

  /** With no argument start in front of `j`, position `j` is whitespace. */
  lemma {:induction false} NoTokenBefore(s: seq<char>, j: nat)
    requires NUL in s && j < Strlen(s)
    requires |TokenStarts(s)| == 0
    ensures IsWhite(s[j])
    decreases j
  {
    if IsTokenStart(s, j) {
      StartsBelowComplete(s, Strlen(s), j);
    }
    if j > 0 {
      NoTokenBefore(s, j - 1);
    }
  }

  /** Once the buffer is blanked up to the end of the line, the C string at each
      recorded argument is exactly that argument's text: it is non-empty, holds
      no whitespace and is NUL-terminated in place (kern/monitor.c:123-124,
      133-135). */
  lemma ArgumentIsTerminated(s: seq<char>, k: nat)
    requires NUL in s && |TokenStarts(s)| < MaxArgs && k < |TokenStarts(s)|
    ensures var t := Blanked(s, Strlen(s)); var i := TokenStarts(s)[k];
      i < |t| && NUL in t[i..] && CStrAt(t, i) == TokenText(s, i)
    ensures var w := TokenText(s, TokenStarts(s)[k]);
      |w| > 0 && forall j :: 0 <= j < |w| ==> !IsDelim(w[j])
  {
    var i := TokenStarts(s)[k];
    var e := TokenEnd(s, i);
    var t := Blanked(s, Strlen(s));
    assert t[e] == NUL;
    assert t[i..][e - i] == NUL;
    TerminatedRun(s, t, i, e);
  }

  /** The C string at `i` in the blanked buffer runs to the argument's end `e`. */
  lemma {:induction false} TerminatedRun(s: seq<char>, t: seq<char>, i: nat, e: nat)
    requires NUL in s && t == Blanked(s, Strlen(s)) && i <= Strlen(s)
    requires i <= e && e == TokenEnd(s, i) && i < |t| && t[e] == NUL
    ensures NUL in t[i..] && CStrAt(t, i) == s[i..e]
    decreases e - i
  {
    assert t[i..][e - i] == NUL;
    if i < e {
      assert t[i] == s[i];
      TerminatedRun(s, t, i + 1, e);
    }
  }

  /** Strlen is the index of the first NUL. */
  lemma StrlenIsFirstNul(s: seq<char>, n: nat)
    requires n < |s| && s[n] == NUL && forall j :: 0 <= j < n ==> s[j] != NUL
    ensures NUL in s && Strlen(s) == n
  {
    assert s[n] == NUL;
    var m := Strlen(s);
    assert !(m < n) && !(n < m);
  }

  /** TokenEnd is the first delimiter at or after `i`. */
  lemma TokenEndAtFirstDelim(s: seq<char>, i: nat, e: nat)
    requires NUL in s && i <= e <= Strlen(s) && IsDelim(s[e])
    requires forall j :: i <= j < e ==> !IsDelim(s[j])
    ensures TokenEnd(s, i) == e
  {
    var r := TokenEnd(s, i);
    assert !(r < e) && !(e < r);
  }

  /** Within a prefix free of delimiters the only argument start is index 0. */
  lemma {:induction false} SingleWord(s: seq<char>, n: nat, m: nat)
    requires 0 < m <= n < |s|
    requires forall j :: 0 <= j < n ==> !IsDelim(s[j])
    ensures StartsBelow(s, m) == [0]
  {
    if m > 1 {
      assert !IsTokenStart(s, m - 1);
      SingleWord(s, n, m - 1);
    } else {
      assert IsTokenStart(s, 0);
    }
  }

  /** Character `j` of the buffer once the tokenizer has scanned the first `i`
      characters of the original line `s`. */
  function ScannedAt(s: seq<char>, i: nat, j: nat): char
    requires j < |s|
  {
    if j < i && IsWhite(s[j]) then NUL else s[j]
  }

  /** `t` is the buffer once the first `i` characters of `s` are scanned. */
  ghost predicate ScannedUpTo(t: seq<char>, s: seq<char>, i: nat)
  {
    |t| == |s| && forall j :: 0 <= j < |t| ==> t[j] == ScannedAt(s, i, j)
  }

  /** Once the scan reaches the NUL or an argument that does not fit, the
      buffer is the blanked line. */
  lemma ScannedIsBlanked(s: seq<char>, t: seq<char>, stop: nat)
    requires ScannedUpTo(t, s, stop)
    ensures t == Blanked(s, stop)
  {
  }

  /** The scan stopped at the NUL with the starts below it recorded: they are
      all of the line's arguments, and there is room for the sentinel. */
  lemma StopAtEnd(s: seq<char>, t: seq<char>, recorded: seq<nat>)
    requires NUL in s && recorded == StartsBelow(s, Strlen(s)) && |recorded| < MaxArgs
    requires ScannedUpTo(t, s, Strlen(s))
    ensures |TokenStarts(s)| < MaxArgs && recorded == TokenStarts(s)
    ensures t == Blanked(s, StopIndex(s))
  {
    ScannedIsBlanked(s, t, Strlen(s));
  }

  /** The scan found an argument start `i` with MAXARGS-1 already recorded:
      `i` is the first argument that does not fit. */
  lemma StopAtExtraToken(s: seq<char>, t: seq<char>, recorded: seq<nat>, i: nat)
    requires NUL in s && i < Strlen(s) && IsTokenStart(s, i)
    requires recorded == StartsBelow(s, i) && |recorded| == MaxArgs - 1
    requires ScannedUpTo(t, s, i)
    ensures |TokenStarts(s)| >= MaxArgs && recorded == TokenStarts(s)[..MaxArgs - 1]
    ensures t == Blanked(s, StopIndex(s))
  {
    FirstExtraToken(s, i);
    ScannedIsBlanked(s, t, i);
  }

  /** The argument start found when MAXARGS-1 are already recorded is the one
      that does not fit, and the line has at least MAXARGS arguments. */
  lemma {:induction false} FirstExtraToken(s: seq<char>, i: nat)
    requires NUL in s && i < Strlen(s) && IsTokenStart(s, i)
    requires |StartsBelow(s, i)| == MaxArgs - 1
    ensures |TokenStarts(s)| >= MaxArgs && StopIndex(s) == i
    ensures TokenStarts(s)[..MaxArgs - 1] == StartsBelow(s, i)
  {
    var p := StartsBelow(s, i + 1);
    var toks := TokenStarts(s);
    assert |p| == MaxArgs && p[MaxArgs - 1] == i && p[..MaxArgs - 1] == StartsBelow(s, i) by {
      assert p == StartsBelow(s, i) + [i];
    }
    assert |toks| >= MaxArgs && toks[..MaxArgs] == p by {
      StartsBelowPrefix(s, i + 1, Strlen(s));
    }
    assert toks[MaxArgs - 1] == toks[..MaxArgs][MaxArgs - 1];
    assert toks[..MaxArgs - 1] == toks[..MaxArgs][..MaxArgs - 1];
  }

  /** The "gobble whitespace" loop (kern/monitor.c:122-124): overwrites the
      whitespace at the cursor with NUL until it reaches an argument or the end
      of the line. */
  method SkipWhitespace(buf: array<char>, ghost s: seq<char>, from: nat) returns (i: nat)
    requires NUL in s && |s| == buf.Length && from <= Strlen(s)
    requires from == 0 || IsDelim(s[from])
    requires ScannedUpTo(buf[..], s, from)
    modifies buf
    ensures from <= i <= Strlen(s)
    ensures ScannedUpTo(buf[..], s, i)
    ensures StartsBelow(s, i) == StartsBelow(s, from)
    ensures buf[i] == NUL <==> i == Strlen(s)
    ensures i < Strlen(s) ==> IsTokenStart(s, i)
  {
    i := from;
    while buf[i] != NUL && IsWhite(buf[i])
      invariant from <= i <= Strlen(s)
      invariant forall j :: 0 <= j < buf.Length ==> buf[j] == ScannedAt(s, i, j)
      invariant StartsBelow(s, i) == StartsBelow(s, from)
      invariant i == 0 || IsWhite(s[i - 1]) || IsDelim(s[i])
      decreases Strlen(s) - i
    {
      buf[i] := NUL;
      i := i + 1;
    }
  }

  /** The "scan past next arg" loop (kern/monitor.c:134-135): moves the cursor
      from an argument's start to its end, leaving the buffer as it is. */
  method SkipArgument(buf: array<char>, ghost s: seq<char>, start: nat) returns (i: nat)
    requires NUL in s && |s| == buf.Length && start < Strlen(s) && IsTokenStart(s, start)
    requires ScannedUpTo(buf[..], s, start)
    ensures i == TokenEnd(s, start) && start < i
    ensures StartsBelow(s, i) == StartsBelow(s, start) + [start]
  {
    i := start;
    while buf[i] != NUL && !IsWhite(buf[i])
      invariant start <= i <= Strlen(s)
      invariant forall j :: start <= j < i ==> !IsDelim(s[j])
      invariant StartsBelow(s, if i == start then start + 1 else i) == StartsBelow(s, start) + [start]
      decreases Strlen(s) - i
    {
      assert buf[i] == s[i];
      i := i + 1;
    }
    assert buf[i] == s[i];
  }

  /** The first half of `runcmd` (kern/monitor.c:118-137), in place on `buf`.
      On success `argv[..argc]` holds every argument start in order and
      `argv[argc]` the null sentinel; with more than MAXARGS-1 arguments the scan
      stops at the start of the first one that does not fit. In both cases the
      whitespace scanned is now NUL and nothing else in the buffer changed. */
  method Tokenize(buf: array<char>) returns (argv: array<int>, argc: nat, tooMany: bool)
    requires NUL in buf[..]
    modifies buf
    ensures fresh(argv) && argv.Length == MaxArgs
    ensures tooMany <==> |TokenStarts(old(buf[..]))| >= MaxArgs
    ensures argc == if tooMany then MaxArgs - 1 else |TokenStarts(old(buf[..]))|
    ensures argv[..argc] == TokenStarts(old(buf[..]))[..argc]
    ensures !tooMany ==> argv[argc] == NullArg
    ensures buf[..] == Blanked(old(buf[..]), StopIndex(old(buf[..])))
  {
    ghost var s := buf[..];
    ghost var n := Strlen(s);
    argv := new int[MaxArgs];
    argc := 0;
    argv[argc] := NullArg;
    tooMany := false;
    var i: nat := 0;
    while true
      invariant fresh(argv) && argv.Length == MaxArgs
      invariant i <= n && argc < MaxArgs
      invariant argv[..argc] == StartsBelow(s, i)
      invariant ScannedUpTo(buf[..], s, i)
      invariant i == 0 || IsDelim(s[i])
      decreases n - i
    {
      i := SkipWhitespace(buf, s, i);
      if buf[i] == NUL {
        break;
      }
      if argc == MaxArgs - 1 {
        tooMany := true;
        StopAtExtraToken(s, buf[..], argv[..argc], i);
        return;
      }
      argv[argc] := i;
      argc := argc + 1;
      i := SkipArgument(buf, s, i);
    }
    StopAtEnd(s, buf[..], argv[..argc]);
    argv[argc] := NullArg;
  }
}
