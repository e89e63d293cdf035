/**
 * The text post-processing applied to OCR output: `normalize_text`,
 * `correct_spelling` (with a pluggable spell checker and the shipped
 * `SimpleSpellChecker`) and `enhance_text`, which composes the two.
 */
module NlpProcessor {
  import opened Chars

  // ---------------------------------------------------------------------
  // Shapes of text
  // ---------------------------------------------------------------------

  /** Characters that survive the clean-up filter `[^\w\s.,:;?!'"-]`. */
  predicate Allowed(c: char) {
    || IsWordChar(c) || IsSpace(c)
    || c == '.' || c == ',' || c == ':' || c == ';' || c == '?' || c == '!'
    || c == '\'' || c == '"' || c == '-'
  }

  /** Every whitespace character of `s` is a plain space. */
  predicate OnlyPlainSpaces(s: string) {
    forall i :: 0 <= i < |s| ==> IsSpace(s[i]) ==> s[i] == ' '
  }

  /** No whitespace at either end. */
  predicate Stripped(s: string) {
    s == [] || (!IsSpace(s[0]) && !IsSpace(s[|s| - 1]))
  }

  /** No two whitespace characters next to each other. */
  ghost predicate NoAdjacentSpaces(s: string) {
    forall i, j :: 0 <= i < j < |s| && j == i + 1 ==> !(IsSpace(s[i]) && IsSpace(s[j]))
  }

  /** Words separated by exactly one plain space, nothing at the ends. */
  ghost predicate SingleSpaced(s: string) {
    OnlyPlainSpaces(s) && Stripped(s) && NoAdjacentSpaces(s)
  }

  /** A token as produced by `str.split()`: non-empty, no whitespace. */
  predicate IsToken(w: string) {
    w != [] && forall i :: 0 <= i < |w| ==> !IsSpace(w[i])
  }

  predicate AllTokens(ws: seq<string>) {
    forall k :: 0 <= k < |ws| ==> IsToken(ws[k])
  }

  /** `str.isspace()`: non-empty and nothing but whitespace. */
  predicate IsBlank(s: string) {
    s != [] && forall i :: 0 <= i < |s| ==> IsSpace(s[i])
  }

  // ---------------------------------------------------------------------
  // normalize_text, step by step
  // ---------------------------------------------------------------------

  /** `s` without its leading whitespace (`str.lstrip()`). */
  function DropLeadingSpaces(s: string): (r: string)
    ensures |r| <= |s| && r == s[|s| - |r|..]
    ensures r == [] || !IsSpace(r[0])
    ensures forall k :: 0 <= k < |s| - |r| ==> IsSpace(s[k])
  {
    if s != [] && IsSpace(s[0]) then DropLeadingSpaces(s[1..]) else s
  }

  /** `s` without its trailing whitespace (`str.rstrip()`). */
  function DropTrailingSpaces(s: string): (r: string)
    ensures |r| <= |s| && r == s[..|r|]
    ensures r == [] || !IsSpace(r[|r| - 1])
    ensures forall k :: |r| <= k < |s| ==> IsSpace(s[k])
  {
    if s != [] && IsSpace(s[|s| - 1]) then DropTrailingSpaces(s[..|s| - 1]) else s
  }

  /** What follows the first character, and the rest of its whitespace run when it is whitespace. */
  function AfterFirstRun(s: string): (t: string)
    requires s != []
    ensures |t| < |s| && t == s[|s| - |t|..]
    ensures IsSpace(s[0]) ==> t == [] || !IsSpace(t[0])
  {
    if IsSpace(s[0]) then DropLeadingSpaces(s[1..]) else s[1..]
  }

  /**
   * `re.sub(r'\s+', ' ', s)`: every maximal run of whitespace becomes one
   * plain space (see CollapseSpacesPlain, CollapseSpacesSeparated and
   * CollapseSpacesChars).
   */
  function CollapseSpaces(s: string): (r: string)
    decreases |s|
    ensures |r| <= |s|
    ensures r == [] <==> s == []
    ensures r != [] ==> (IsSpace(r[0]) <==> IsSpace(s[0]))
  {
    if s == [] then []
    else [if IsSpace(s[0]) then ' ' else s[0]] + CollapseSpaces(AfterFirstRun(s))
  }

  /** The collapsed text ends in whitespace exactly when the input does: a trailing run survives as one space. */
  lemma {:induction false} CollapseSpacesLast(s: string)
    requires s != []
    ensures IsSpace(CollapseSpaces(s)[|CollapseSpaces(s)| - 1]) <==> IsSpace(s[|s| - 1])
    decreases |s|
  {
    var t := AfterFirstRun(s);
    var h := if IsSpace(s[0]) then ' ' else s[0];
    var r := CollapseSpaces(s);
    assert r == [h] + CollapseSpaces(t);
    if t == [] {
      assert r == [h];
      if IsSpace(s[0]) && |s| > 1 {
        assert DropLeadingSpaces(s[1..]) == [];
        assert IsSpace(s[1..][|s| - 2]);
      }
    } else {
      CollapseSpacesLast(t);
      assert r[|r| - 1] == CollapseSpaces(t)[|CollapseSpaces(t)| - 1];
      assert t[|t| - 1] == s[|s| - 1];
    }
  }

  /** Every whitespace character of the collapsed text is a plain space. */
  lemma {:induction false} CollapseSpacesPlain(s: string)
    ensures OnlyPlainSpaces(CollapseSpaces(s))
    decreases |s|
  {
    if s != [] {
      var rest := CollapseSpaces(AfterFirstRun(s));
      CollapseSpacesPlain(AfterFirstRun(s));
      var r := CollapseSpaces(s);
      assert r == [if IsSpace(s[0]) then ' ' else s[0]] + rest;
      forall i | 0 <= i < |r| && IsSpace(r[i])
        ensures r[i] == ' '
      {
        if i > 0 { assert r[i] == rest[i - 1]; }
      }
    }
  }

  /** The collapsed text never has two whitespace characters next to each other. */
  lemma {:induction false} CollapseSpacesSeparated(s: string)
    ensures NoAdjacentSpaces(CollapseSpaces(s))
    decreases |s|
  {
    if s != [] {
      var t := AfterFirstRun(s);
      var rest := CollapseSpaces(t);
      CollapseSpacesSeparated(t);
      var r := CollapseSpaces(s);
      assert r == [if IsSpace(s[0]) then ' ' else s[0]] + rest;
      assert IsSpace(r[0]) ==> rest == [] || !IsSpace(rest[0]);
      forall i, j | 0 <= i < j < |r| && j == i + 1
        ensures !(IsSpace(r[i]) && IsSpace(r[j]))
      {
        assert r[j] == rest[i];
        if i > 0 { assert r[i] == rest[i - 1]; }
      }
    }
  }

  /** A character of a suffix is a character of the whole. */
  lemma InSuffix(s: string, t: string, c: char)
    requires |t| <= |s| && t == s[|s| - |t|..] && c in t
    ensures c in s
  {
    var j :| 0 <= j < |t| && t[j] == c;
    assert s[|s| - |t| + j] == c;
  }

  /** Collapsing adds no characters other than plain spaces. */
  lemma {:induction false} CollapseSpacesChars(s: string, c: char)
    requires c in CollapseSpaces(s)
    ensures c == ' ' || c in s
    decreases |s|
  {
    var t := AfterFirstRun(s);
    assert CollapseSpaces(s) == [if IsSpace(s[0]) then ' ' else s[0]] + CollapseSpaces(t);
    if c != ' ' && c != s[0] {
      assert c in CollapseSpaces(t);
      CollapseSpacesChars(t, c);
      InSuffix(s, t, c);
    }
  }

  /** `s.replace(a, b)` for single characters. */
  function ReplaceChar(s: string, a: char, b: char): (r: string)
    ensures |r| == |s|
    ensures a != b ==> a !in r
    ensures forall i {:trigger r[i]} :: 0 <= i < |s| && s[i] != a ==> r[i] == s[i]
    ensures forall i {:trigger r[i]} :: 0 <= i < |s| && s[i] == a ==> r[i] == b
  {
    seq(|s|, i requires 0 <= i < |s| => if s[i] == a then b else s[i])
  }

  /** `re.sub(r'[^\w\s.,:;?!\'"-]', '', s)`: deletes every disallowed character. */
  function KeepAllowed(s: string): (r: string)
    ensures |r| <= |s|
    ensures forall i :: 0 <= i < |r| ==> Allowed(r[i]) && r[i] in s
    ensures forall i :: 0 <= i < |s| && Allowed(s[i]) ==> s[i] in r
  {
    if s == [] then []
    else if Allowed(s[0]) then [s[0]] + KeepAllowed(s[1..])
    else KeepAllowed(s[1..])
  }

  /** KeepAllowed is a filter: it works character by character and keeps the order. */
  lemma {:induction false} KeepAllowedAppend(a: string, b: string)
    ensures KeepAllowed(a + b) == KeepAllowed(a) + KeepAllowed(b)
    decreases |a|
  {
    if a == [] {
      assert a + b == b;
    } else {
      assert (a + b)[0] == a[0] && (a + b)[1..] == a[1..] + b;
      KeepAllowedAppend(a[1..], b);
    }
  }

  /** On one character, KeepAllowed keeps it exactly when it is allowed. */
  lemma KeepAllowedOne(c: char)
    ensures KeepAllowed([c]) == if Allowed(c) then [c] else []
  {
    assert [c][1..] == [];
  }

  /** `str.strip()`. */
  function Strip(s: string): (r: string)
    ensures |r| <= |s| && Stripped(r)
    ensures forall i :: 0 <= i < |r| ==> r[i] in s
    ensures r == [] <==> forall i :: 0 <= i < |s| ==> IsSpace(s[i])
  {
    DropTrailingSpaces(DropLeadingSpaces(s))
  }

  /** A prefix of a suffix of `s` is a slice of `s`. */
  lemma PrefixOfSuffix(s: string, i: nat, r: string)
    requires i <= |s| && |r| <= |s| - i && r == s[i..][..|r|]
    ensures r == s[i..i + |r|]
  {
  }

  /** Whitespace after a prefix of a suffix of `s` is whitespace of `s`. */
  lemma SpacesAfterPrefixOfSuffix(s: string, i: nat, n: nat)
    requires i + n <= |s|
    requires forall k :: n <= k < |s| - i ==> IsSpace(s[i..][k])
    ensures forall k :: i + n <= k < |s| ==> IsSpace(s[k])
  {
    forall k | i + n <= k < |s|
      ensures IsSpace(s[k])
    {
      assert s[k] == s[i..][k - i];
    }
  }

  /**
   * A whitespace-led suffix `d` of `s`, cut down to a prefix `r` followed by
   * whitespace, is the slice `s[i..j]` with only whitespace outside it.
   */
  lemma TrimmedSlice(s: string, d: string, r: string)
    requires |d| <= |s| && d == s[|s| - |d|..]
    requires forall k :: 0 <= k < |s| - |d| ==> IsSpace(s[k])
    requires |r| <= |d| && r == d[..|r|]
    requires forall k :: |r| <= k < |d| ==> IsSpace(d[k])
    ensures exists i, j ::
      && 0 <= i <= j <= |s| && r == s[i..j]
      && (forall k :: 0 <= k < i ==> IsSpace(s[k]))
      && (forall k :: j <= k < |s| ==> IsSpace(s[k]))
  {
    var i := |s| - |d|;
    PrefixOfSuffix(s, i, r);
    SpacesAfterPrefixOfSuffix(s, i, |r|);
    assert r == s[i..i + |r|];
  }

  /** `str.strip()` removes exactly a whitespace prefix and a whitespace suffix. */
  lemma StripIsTrimmedSlice(s: string)
    ensures exists i, j ::
      && 0 <= i <= j <= |s| && Strip(s) == s[i..j]
      && (forall k :: 0 <= k < i ==> IsSpace(s[k]))
      && (forall k :: j <= k < |s| ==> IsSpace(s[k]))
  {
    var d := DropLeadingSpaces(s);
    TrimmedSlice(s, d, DropTrailingSpaces(d));
  }

  /** No `|`, no `0`, only allowed characters, and plain spaces only. */
  ghost predicate Cleaned(s: string) {
    && '|' !in s && '0' !in s && OnlyPlainSpaces(s)
    && forall i :: 0 <= i < |s| ==> Allowed(s[i])
  }

  /** Replacing `|` and `0` and then filtering cleans text that has only plain spaces. */
  lemma FilterCleans(s: string)
    requires OnlyPlainSpaces(s)
    ensures Cleaned(KeepAllowed(ReplaceChar(ReplaceChar(s, '|', 'I'), '0', 'O')))
  {
    var fixed := ReplaceChar(ReplaceChar(s, '|', 'I'), '0', 'O');
    assert OnlyPlainSpaces(fixed) by {
      forall i | 0 <= i < |fixed| && IsSpace(fixed[i])
        ensures fixed[i] == ' '
      {
        assert fixed[i] == s[i];
      }
    }
    assert '|' !in fixed by {
      forall i | 0 <= i < |fixed|
        ensures fixed[i] != '|'
      {
        assert ReplaceChar(s, '|', 'I')[i] != '|';
      }
    }
    var kept := KeepAllowed(fixed);
    forall i | 0 <= i < |kept|
      ensures kept[i] != '|' && kept[i] != '0' && (IsSpace(kept[i]) ==> kept[i] == ' ')
    {
      var j :| 0 <= j < |fixed| && fixed[j] == kept[i];
    }
  }

  /** Stripping keeps text cleaned. */
  lemma StripKeepsCleaned(s: string)
    requires Cleaned(s)
    ensures Cleaned(Strip(s))
  {
    var r := Strip(s);
    forall i | 0 <= i < |r|
      ensures r[i] != '|' && r[i] != '0' && Allowed(r[i]) && (IsSpace(r[i]) ==> r[i] == ' ')
    {
      var j :| 0 <= j < |s| && s[j] == r[i];
    }
  }

  /**
   * `normalize_text`: empty input gives "", otherwise whitespace runs become
   * one space, `|` becomes `I`, `0` becomes `O`, disallowed characters are
   * deleted, and the result is stripped.  A deleted character between two
   * spaces leaves a double space behind (see NormalizeKeepsDoubleSpace).
   */
  function NormalizeText(text: string): (r: string)
    ensures text == [] ==> r == []
    ensures '|' !in r && '0' !in r
    ensures forall i :: 0 <= i < |r| ==> Allowed(r[i])
    ensures OnlyPlainSpaces(r) && Stripped(r)
    ensures |r| <= |text|
  {
    if text == [] then []
    else
      var collapsed := CollapseSpaces(text);
      CollapseSpacesPlain(text);
      var kept := KeepAllowed(ReplaceChar(ReplaceChar(collapsed, '|', 'I'), '0', 'O'));
      FilterCleans(collapsed);
      StripKeepsCleaned(kept);
      Strip(kept)
  }

  lemma CollapseExample()
    ensures CollapseSpaces("a $ b") == "a $ b"
  {
    assert AfterFirstRun("b") == [];
    assert CollapseSpaces("b") == "b";
    assert DropLeadingSpaces("b") == "b";
    assert AfterFirstRun(" b") == "b";
    assert CollapseSpaces(" b") == " b";
    assert AfterFirstRun("$ b") == " b";
    assert CollapseSpaces("$ b") == "$ b";
    assert DropLeadingSpaces("$ b") == "$ b";
    assert AfterFirstRun(" $ b") == "$ b";
    assert CollapseSpaces(" $ b") == " $ b";
    assert AfterFirstRun("a $ b") == " $ b";
  }

  lemma KeepAllowedExample()
    ensures KeepAllowed("a $ b") == "a  b"
  {
    assert "a $ b"[1..] == " $ b" && " $ b"[1..] == "$ b" && "$ b"[1..] == " b";
    assert " b"[1..] == "b" && "b"[1..] == [];
    calc {
      KeepAllowed("a $ b");
      "a" + KeepAllowed(" $ b");
      "a " + KeepAllowed("$ b");
      "a " + KeepAllowed(" b");
      "a  " + KeepAllowed("b");
      "a  b";
    }
  }

  /** The double space left by a deleted character is not squeezed out. */
  lemma NormalizeKeepsDoubleSpace()
    ensures NormalizeText("a $ b") == "a  b"
  {
    var s, k := "a $ b", "a  b";
    calc {
      NormalizeText(s);
      Strip(KeepAllowed(ReplaceChar(ReplaceChar(CollapseSpaces(s), '|', 'I'), '0', 'O')));
      { CollapseExample(); }
      Strip(KeepAllowed(ReplaceChar(ReplaceChar(s, '|', 'I'), '0', 'O')));
      { assert ReplaceChar(s, '|', 'I') == s; assert ReplaceChar(s, '0', 'O') == s; }
      Strip(KeepAllowed(s));
      { KeepAllowedExample(); }
      Strip(k);
      { assert DropLeadingSpaces(k) == k; assert DropTrailingSpaces(k) == k; }
      k;
    }
  }

  // ---------------------------------------------------------------------
  // str.split() and ' '.join(...)
  // ---------------------------------------------------------------------

  /** Length of the leading run of non-whitespace characters. */
  function WordLength(s: string): (n: nat)
    ensures n <= |s|
    ensures forall k :: 0 <= k < n ==> !IsSpace(s[k])
    ensures n < |s| ==> IsSpace(s[n])
  {
    if s == [] || IsSpace(s[0]) then 0 else 1 + WordLength(s[1..])
  }

  /** `str.split()` with no separator: the maximal whitespace-free runs, in order. */
  function SplitWords(s: string): (ws: seq<string>)
    decreases |s|
    ensures |ws| <= |s|
  {
    if s == [] then []
    else if IsSpace(s[0]) then SplitWords(s[1..])
    else
      var n := WordLength(s);
      [s[..n]] + SplitWords(s[n..])
  }

  /** Every piece `str.split()` yields is a token: non-empty and free of whitespace. */
  lemma {:induction false} SplitWordsTokens(s: string)
    ensures AllTokens(SplitWords(s))
    decreases |s|
  {
    if s != [] {
      if IsSpace(s[0]) {
        SplitWordsTokens(s[1..]);
      } else {
        var n := WordLength(s);
        var t, rest := s[..n], SplitWords(s[n..]);
        SplitWordsTokens(s[n..]);
        assert IsToken(t) by {
          assert t[0] == s[0];
        }
        var ws := [t] + rest;
        assert SplitWords(s) == ws;
        forall k | 0 <= k < |ws|
          ensures IsToken(ws[k])
        {
          if k > 0 { assert ws[k] == rest[k - 1]; }
        }
      }
    }
  }

  /** Splitting yields no tokens exactly when the text is all whitespace. */
  lemma {:induction false} SplitWordsNoneIffBlank(s: string)
    ensures SplitWords(s) == [] <==> forall i :: 0 <= i < |s| ==> IsSpace(s[i])
    decreases |s|
  {
    if s != [] && IsSpace(s[0]) {
      SplitWordsNoneIffBlank(s[1..]);
      assert forall i :: 1 <= i < |s| ==> s[i] == s[1..][i - 1];
    }
  }

  /** `' '.join(ws)`. */
  function JoinSpace(ws: seq<string>): (s: string)
    ensures ws != [] ==> ws[0] <= s
    ensures |ws| > 1 ==> |s| > |ws[0]| && s[|ws[0]|] == ' '
  {
    if ws == [] then []
    else if |ws| == 1 then ws[0]
    else ws[0] + " " + JoinSpace(ws[1..])
  }

  /** The characters of a joined list are spaces or characters of the tokens. */
  lemma {:induction false} JoinSpaceChars(ws: seq<string>, c: char)
    requires c in JoinSpace(ws)
    ensures c == ' ' || exists k :: 0 <= k < |ws| && c in ws[k]
  {
    if |ws| > 1 {
      var rest := JoinSpace(ws[1..]);
      assert JoinSpace(ws) == ws[0] + " " + rest;
      if c !in ws[0] && c != ' ' {
        assert c in rest;
        JoinSpaceChars(ws[1..], c);
        var k :| 0 <= k < |ws[1..]| && c in ws[1..][k];
        assert c in ws[k + 1];
      }
    }
  }

  /** Joining tokens with one space gives single-spaced text. */
  lemma {:induction false} JoinSpaceSingleSpaced(ws: seq<string>)
    requires AllTokens(ws)
    ensures SingleSpaced(JoinSpace(ws))
    ensures ws != [] ==> JoinSpace(ws) != []
  {
    if |ws| > 1 {
      var t, rest := ws[0], JoinSpace(ws[1..]);
      JoinSpaceSingleSpaced(ws[1..]);
      assert IsToken(t);
      var s := t + " " + rest;
      assert JoinSpace(ws) == s;
      assert forall i :: 0 <= i < |t| ==> s[i] == t[i];
      assert s[|t|] == ' ';
      assert forall i :: |t| < i < |s| ==> s[i] == rest[i - |t| - 1];
      assert NoAdjacentSpaces(s) by {
        forall i | 0 <= i < |s| - 1
          ensures !(IsSpace(s[i]) && IsSpace(s[i + 1]))
        {
          if i < |t| - 1 {
          } else if i == |t| - 1 {
          } else if i == |t| {
            assert s[i + 1] == rest[0];
          } else {
            assert s[i] == rest[i - |t| - 1] && s[i + 1] == rest[i - |t|];
          }
        }
      }
    } else if |ws| == 1 {
      assert IsToken(ws[0]);
    }
  }

  /** Splitting skips whitespace in front of the first token. */
  lemma {:induction false} SplitSkipsSpace(c: char, s: string)
    requires IsSpace(c)
    ensures SplitWords([c] + s) == SplitWords(s)
  {
    assert ([c] + s)[1..] == s;
  }

  /** Splitting a token followed by whitespace yields that token first. */
  lemma {:induction false} SplitAfterToken(t: string, rest: string)
    requires IsToken(t)
    requires rest == [] || IsSpace(rest[0])
    ensures SplitWords(t + rest) == [t] + SplitWords(rest)
  {
    var s := t + rest;
    assert s[0] == t[0];
    assert WordLength(s) == |t| by {
      WordLengthOfToken(t, rest);
    }
    assert s[..|t|] == t && s[|t|..] == rest;
  }

  lemma {:induction false} WordLengthOfToken(t: string, rest: string)
    requires forall i :: 0 <= i < |t| ==> !IsSpace(t[i])
    requires rest == [] || IsSpace(rest[0])
    ensures WordLength(t + rest) == |t|
  {
    if t == [] {
      assert t + rest == rest;
    } else {
      assert (t + rest)[1..] == t[1..] + rest;
      WordLengthOfToken(t[1..], rest);
    }
  }

  /** Round trip: splitting a space-joined list of tokens gives the tokens back. */
  lemma {:induction false} SplitJoin(ws: seq<string>)
    requires AllTokens(ws)
    ensures SplitWords(JoinSpace(ws)) == ws
  {
    if ws == [] {
    } else if |ws| == 1 {
      SplitAfterToken(ws[0], []);
      assert ws[0] + [] == ws[0];
    } else {
      var rest := JoinSpace(ws[1..]);
      assert JoinSpace(ws) == ws[0] + (" " + rest);
      SplitAfterToken(ws[0], " " + rest);
      SplitSkipsSpace(' ', rest);
      SplitJoin(ws[1..]);
      assert [ws[0]] + ws[1..] == ws;
    }
  }

  /** A single-spaced text that goes on after its first word goes on with one space and more single-spaced text. */
  lemma SingleSpacedAfterWord(s: string, n: nat)
    requires SingleSpaced(s) && n == WordLength(s) && n < |s|
    ensures s[n] == ' ' && n + 1 < |s|
    ensures s[n + 1..] != [] && !IsSpace(s[n + 1])
    ensures SingleSpaced(s[n + 1..])
  {
    var rest := s[n + 1..];
    assert !(IsSpace(s[n]) && IsSpace(s[n + 1]));
    assert forall i :: 0 <= i < |rest| ==> rest[i] == s[n + 1 + i];
  }

  /** Joining a token in front of a non-empty list puts one space after it. */
  lemma JoinSpaceCons(t: string, ws: seq<string>)
    requires ws != []
    ensures JoinSpace([t] + ws) == t + " " + JoinSpace(ws)
  {
    assert ([t] + ws)[1..] == ws;
  }

  /** Text that starts with a non-space splits into its first word and the split of the rest. */
  lemma SplitFirstWord(s: string)
    requires s != [] && !IsSpace(s[0])
    ensures SplitWords(s) == [s[..WordLength(s)]] + SplitWords(s[WordLength(s)..])
  {
  }

  /** Text with a space at `n` is what comes before it, the space, and what comes after. */
  lemma SpaceAt(s: string, n: nat)
    requires n < |s| && s[n] == ' '
    ensures s[n..] == [' '] + s[n + 1..]
    ensures s == s[..n] + " " + s[n + 1..]
  {
    assert s == s[..n] + s[n..];
  }

  /**
   * Text that starts with a word of length `n` followed by one space and a
   * non-space splits into that word and the split of what follows the space.
   */
  lemma SplitAtSpace(s: string, n: nat)
    requires s != [] && !IsSpace(s[0]) && n == WordLength(s)
    requires n + 1 < |s| && s[n] == ' ' && !IsSpace(s[n + 1])
    ensures s == s[..n] + " " + s[n + 1..]
    ensures SplitWords(s) == [s[..n]] + SplitWords(s[n + 1..])
    ensures SplitWords(s[n + 1..]) != []
  {
    var rest := s[n + 1..];
    SplitFirstWord(s);
    SpaceAt(s, n);
    SplitSkipsSpace(' ', rest);
    SplitFirstWord(rest);
  }

  /** Round trip the other way: single-spaced text survives split-then-join. */
  lemma {:induction false} JoinSplit(s: string)
    requires SingleSpaced(s)
    ensures JoinSpace(SplitWords(s)) == s
    decreases |s|
  {
    if s != [] {
      var n := WordLength(s);
      if n == |s| {
        SplitFirstWord(s);
        assert s[n..] == [] && s[..n] == s;
      } else {
        SingleSpacedAfterWord(s, n);
        SplitAtSpace(s, n);
        JoinSplit(s[n + 1..]);
        JoinSpaceCons(s[..n], SplitWords(s[n + 1..]));
      }
    }
  }

  /** Every character of split-then-join is a space or a non-space character of the input. */
  lemma {:induction false} SplitWordsChars(s: string, k: nat, c: char)
    requires k < |SplitWords(s)| && c in SplitWords(s)[k]
    ensures c in s && !IsSpace(c)
    decreases |s|
  {
    var ws := SplitWords(s);
    SplitWordsTokens(s);
    assert IsToken(ws[k]);
    if IsSpace(s[0]) {
      SplitWordsChars(s[1..], k, c);
    } else {
      var n := WordLength(s);
      if k == 0 {
        assert c in s[..n];
      } else {
        SplitWordsChars(s[n..], k - 1, c);
      }
    }
  }

  // ---------------------------------------------------------------------
  // Spell checking
  // ---------------------------------------------------------------------

  /** A spell checker: `word in checker` and `checker.correction(word)`. */
  datatype SpellChecker = SpellChecker(known: string -> bool, correction: string -> string)

  /** `SimpleSpellChecker.__contains__`: every word counts as correct. */
  function SimpleContains(word: string): (known: bool)
    ensures known
  {
    true
  }

  /** `SimpleSpellChecker.correction`: the word itself. */
  function SimpleCorrection(word: string): (c: string)
    ensures c == word
  {
    word
  }

  const SimpleSpellChecker: SpellChecker := SpellChecker(SimpleContains, SimpleCorrection)

  /** `all(c in string.punctuation for c in word)`. */
  predicate AllPunctuation(w: string) {
    forall i :: 0 <= i < |w| ==> IsPunctuation(w[i])
  }

  /** Length of the leading run of non-word characters (`[^\w]*`). */
  function NonWordLength(s: string): (n: nat)
    ensures n <= |s|
    ensures forall k :: 0 <= k < n ==> !IsWordChar(s[k])
    ensures n < |s| ==> IsWordChar(s[n])
  {
    if s == [] || IsWordChar(s[0]) then 0 else 1 + NonWordLength(s[1..])
  }

  /** Length of the leading run of word characters (`\w*`). */
  function WordCharLength(s: string): (n: nat)
    ensures n <= |s|
    ensures forall k :: 0 <= k < n ==> IsWordChar(s[k])
    ensures n < |s| ==> !IsWordChar(s[n])
  {
    if s == [] || !IsWordChar(s[0]) then 0 else 1 + WordCharLength(s[1..])
  }

  /**
   * The body of the loop in `correct_spelling` for one token: short and
   * punctuation-only tokens are kept; otherwise `re.match(r'([^\w]*)(\w+)([^\w]*)', word)`
   * splits off a prefix, a word part and a suffix, and an unknown word part
   * is replaced by a non-empty correction.  The match need not cover the
   * whole token: what follows the suffix is not part of a corrected token
   * (see CorrectTokenDropsTail).
   */
  function CorrectToken(word: string, checker: SpellChecker): (r: string)
    ensures |word| <= 2 || AllPunctuation(word) ==> r == word
    ensures (forall w :: checker.known(w)) ==> r == word
  {
    if AllPunctuation(word) || |word| <= 2 then word
    else
      var p := NonWordLength(word);
      var m := WordCharLength(word[p..]);
      if m == 0 then word  // no match: there is no word character at all
      else
        var prefix, core := word[..p], word[p..p + m];
        var q := NonWordLength(word[p + m..]);
        var suffix := word[p + m..p + m + q];
        if !checker.known(Lower(core)) then
          var c := checker.correction(core);
          if c != [] then prefix + c + suffix else word
        else word
  }

  /** With a checker that rejects "ab", the token "ab-cd" loses its tail "cd". */
  lemma CorrectTokenDropsTail()
    ensures CorrectToken("ab-cd", SpellChecker(w => w != "ab", w => "AB")) == "AB-"
  {
    var word := "ab-cd";
    assert !AllPunctuation(word) by { assert !IsPunctuation(word[0]); }
    assert NonWordLength(word) == 0;
    assert WordCharLength(word) == 2 by {
      assert word[1..] == "b-cd" && word[2..] == "-cd";
    }
    assert word[2..] == "-cd";
    assert NonWordLength("-cd") == 1 by { assert "-cd"[1..] == "cd"; }
    assert Lower("ab") == "ab";
  }

  /** The corrected tokens, one per input token. */
  function CorrectTokens(ws: seq<string>, checker: SpellChecker): (rs: seq<string>)
    ensures |rs| == |ws|
  {
    seq(|ws|, k requires 0 <= k < |ws| => CorrectToken(ws[k], checker))
  }

  /** What `correct_spelling(text)` returns. */
  function CorrectedText(text: string, checker: SpellChecker): (r: string)
    ensures (forall w :: checker.known(w)) ==> r == JoinSpace(SplitWords(text))
  {
    if text == [] then []
    else
      var ws := SplitWords(text);
      assert (forall w :: checker.known(w)) ==> CorrectTokens(ws, checker) == ws by {
        if forall w :: checker.known(w) {
          assert forall k :: 0 <= k < |ws| ==> CorrectTokens(ws, checker)[k] == ws[k];
        }
      }
      JoinSpace(CorrectTokens(ws, checker))
  }

  /** `correct_spelling`: split, correct token by token, join with single spaces. */
  method CorrectSpelling(text: string, checker: SpellChecker) returns (r: string)
    ensures text == [] ==> r == []
    ensures r == CorrectedText(text, checker)
  {
    if text == [] {
      return [];
    }
    var words := SplitWords(text);
    var corrected: seq<string> := [];
    for i := 0 to |words|
      invariant |corrected| == i
      invariant forall k :: 0 <= k < i ==> corrected[k] == CorrectToken(words[k], checker)
    {
      corrected := corrected + [CorrectToken(words[i], checker)];
    }
    assert corrected == CorrectTokens(words, checker);
    r := JoinSpace(corrected);
  }

  /**
   * With the shipped checker every token passes through unchanged, so
   * `correct_spelling` only re-spaces the text: same tokens, same order,
   * one space between them.
   */
  lemma ShippedCheckerOnlyRespaces(text: string)
    ensures CorrectedText(text, SimpleSpellChecker) == JoinSpace(SplitWords(text))
    ensures SplitWords(CorrectedText(text, SimpleSpellChecker)) == SplitWords(text)
  {
    var ws := SplitWords(text);
    assert CorrectTokens(ws, SimpleSpellChecker) == ws;
    SplitWordsTokens(text);
    SplitJoin(ws);
  }

  // ---------------------------------------------------------------------
  // What normalisation keeps
  // ---------------------------------------------------------------------

  /** Leading whitespace does not change the split. */
  lemma {:induction false} SplitDropLeading(s: string)
    ensures SplitWords(DropLeadingSpaces(s)) == SplitWords(s)
    decreases |s|
  {
    if s != [] && IsSpace(s[0]) {
      SplitDropLeading(s[1..]);
    }
  }

  /** Trailing whitespace does not change the split. */
  lemma {:induction false} SplitAppendSpaces(s: string, sp: string)
    requires forall k :: 0 <= k < |sp| ==> IsSpace(sp[k])
    ensures SplitWords(s + sp) == SplitWords(s)
    decreases |s|
  {
    if s == [] {
      assert s + sp == sp;
      SplitWordsNoneIffBlank(sp);
    } else if IsSpace(s[0]) {
      assert (s + sp)[0] == s[0] && (s + sp)[1..] == s[1..] + sp;
      SplitAppendSpaces(s[1..], sp);
    } else {
      var n := WordLength(s);
      var w, rest := s[..n], s[n..];
      assert IsToken(w) by { assert w[0] == s[0]; }
      assert s + sp == w + (rest + sp);
      assert rest + sp == [] || IsSpace((rest + sp)[0]) by {
        if rest == [] { assert rest + sp == sp; }
      }
      SplitAfterToken(w, rest + sp);
      SplitAppendSpaces(rest, sp);
      SplitFirstWord(s);
    }
  }

  /** Trailing whitespace removed by `rstrip` does not change the split. */
  lemma SplitDropTrailing(d: string)
    ensures SplitWords(DropTrailingSpaces(d)) == SplitWords(d)
  {
    var r := DropTrailingSpaces(d);
    var sp := d[|r|..];
    assert d == d[..|r|] + sp;
    forall k | 0 <= k < |sp|
      ensures IsSpace(sp[k])
    {
      assert sp[k] == d[|r| + k];
    }
    SplitAppendSpaces(r, sp);
  }

  /** Stripping does not change the split. */
  lemma SplitStrip(s: string)
    ensures SplitWords(Strip(s)) == SplitWords(s)
  {
    SplitDropLeading(s);
    SplitDropTrailing(DropLeadingSpaces(s));
  }

  /** A non-whitespace first character passes through CollapseSpaces unchanged. */
  lemma CollapseWordStep(w: string, rest: string)
    requires w != [] && !IsSpace(w[0])
    ensures CollapseSpaces(w + rest) == [w[0]] + CollapseSpaces(w[1..] + rest)
  {
    assert (w + rest)[0] == w[0];
    assert (w + rest)[1..] == w[1..] + rest;
  }

  /** Re-attaching the first element of a non-empty sequence. */
  lemma ConsTail(w: string, x: string)
    requires w != []
    ensures [w[0]] + (w[1..] + x) == w + x
  {
    assert w == [w[0]] + w[1..];
  }

  /** A run of non-whitespace passes through CollapseSpaces unchanged. */
  lemma {:induction false} CollapseWordPrefix(w: string, rest: string)
    requires forall i :: 0 <= i < |w| ==> !IsSpace(w[i])
    ensures CollapseSpaces(w + rest) == w + CollapseSpaces(rest)
    decreases |w|
  {
    if w == [] {
      assert w + rest == rest;
    } else {
      CollapseWordStep(w, rest);
      CollapseWordPrefix(w[1..], rest);
      ConsTail(w, CollapseSpaces(rest));
    }
  }

  /** A leading whitespace run collapses to one space in front of the collapsed rest. */
  lemma CollapseSpaceStep(s: string)
    requires s != [] && IsSpace(s[0])
    ensures CollapseSpaces(s) == [' '] + CollapseSpaces(AfterFirstRun(s))
  {
  }

  /** Skipping a leading whitespace run does not change the split. */
  lemma SplitAfterFirstRun(s: string)
    requires s != [] && IsSpace(s[0])
    ensures SplitWords(AfterFirstRun(s)) == SplitWords(s)
  {
    SplitDropLeading(s[1..]);
    assert s == [s[0]] + s[1..];
    SplitSkipsSpace(s[0], s[1..]);
  }

  /** CollapseSpacesKeepsWords when the text starts with whitespace, given it for the rest. */
  lemma CollapseKeepsWordsAtSpace(s: string)
    requires s != [] && IsSpace(s[0])
    requires SplitWords(CollapseSpaces(AfterFirstRun(s))) == SplitWords(AfterFirstRun(s))
    ensures SplitWords(CollapseSpaces(s)) == SplitWords(s)
  {
    var t := AfterFirstRun(s);
    calc {
      SplitWords(CollapseSpaces(s));
      { CollapseSpaceStep(s); }
      SplitWords([' '] + CollapseSpaces(t));
      { SplitSkipsSpace(' ', CollapseSpaces(t)); }
      SplitWords(CollapseSpaces(t));
      SplitWords(t);
      { SplitAfterFirstRun(s); }
      SplitWords(s);
    }
  }

  /** A leading word passes through CollapseSpaces unchanged. */
  lemma CollapseFirstWord(s: string)
    ensures CollapseSpaces(s) == s[..WordLength(s)] + CollapseSpaces(s[WordLength(s)..])
  {
    var n := WordLength(s);
    var w := s[..n];
    forall i | 0 <= i < |w|
      ensures !IsSpace(w[i])
    {
      assert w[i] == s[i];
    }
    assert s == w + s[n..];
    CollapseWordPrefix(w, s[n..]);
  }

  /** CollapseSpacesKeepsWords when the text starts with a word, given it for what follows the word. */
  lemma CollapseKeepsWordsAtWord(s: string)
    requires s != [] && !IsSpace(s[0])
    requires SplitWords(CollapseSpaces(s[WordLength(s)..])) == SplitWords(s[WordLength(s)..])
    ensures SplitWords(CollapseSpaces(s)) == SplitWords(s)
  {
    var n := WordLength(s);
    var w, rest := s[..n], s[n..];
    var c := CollapseSpaces(rest);
    assert IsToken(w) by { assert w[0] == s[0]; }
    assert c == [] || IsSpace(c[0]);
    calc {
      SplitWords(CollapseSpaces(s));
      { CollapseFirstWord(s); }
      SplitWords(w + c);
      { SplitAfterToken(w, c); }
      [w] + SplitWords(c);
      [w] + SplitWords(rest);
      { SplitFirstWord(s); }
      SplitWords(s);
    }
  }

  /** Collapsing whitespace keeps every word: the split is the same before and after. */
  lemma {:induction false} CollapseSpacesKeepsWords(s: string)
    ensures SplitWords(CollapseSpaces(s)) == SplitWords(s)
    decreases |s|
  {
    if s != [] {
      if IsSpace(s[0]) {
        CollapseSpacesKeepsWords(AfterFirstRun(s));
        CollapseKeepsWordsAtSpace(s);
      } else {
        CollapseSpacesKeepsWords(s[WordLength(s)..]);
        CollapseKeepsWordsAtWord(s);
      }
    }
  }

  /** Collapsing text made of allowed characters other than `|` and `0` yields such text again. */
  lemma CollapseKeepsClean(t: string)
    requires forall i :: 0 <= i < |t| ==> Allowed(t[i]) && t[i] != '|' && t[i] != '0'
    ensures forall i :: 0 <= i < |CollapseSpaces(t)| ==> Allowed(CollapseSpaces(t)[i])
    ensures '|' !in CollapseSpaces(t) && '0' !in CollapseSpaces(t)
  {
    var c := CollapseSpaces(t);
    forall i | 0 <= i < |c|
      ensures Allowed(c[i]) && c[i] != '|' && c[i] != '0'
    {
      CollapseSpacesChars(t, c[i]);
      if c[i] != ' ' {
        var j :| 0 <= j < |t| && t[j] == c[i];
      }
    }
  }

  /**
   * Text already made of allowed characters, with no `|` and no `0`, is only
   * re-spaced: normalising keeps its words, and enhancing it gives its words
   * joined by single spaces.
   */
  lemma CleanTextOnlyRespaced(t: string)
    requires forall i :: 0 <= i < |t| ==> Allowed(t[i]) && t[i] != '|' && t[i] != '0'
    ensures SplitWords(NormalizeText(t)) == SplitWords(t)
    ensures EnhanceText(t) == JoinSpace(SplitWords(t))
  {
    if t != [] {
      var c := CollapseSpaces(t);
      CollapseKeepsClean(t);
      ReplaceAbsent(c, '|', 'I');
      ReplaceAbsent(c, '0', 'O');
      KeepAllowedKeepsAllowed(c);
      assert NormalizeText(t) == Strip(c);
      SplitStrip(c);
      CollapseSpacesKeepsWords(t);
      if IsBlank(t) {
        SplitWordsNoneIffBlank(t);
      } else {
        ShippedCheckerOnlyRespaces(NormalizeText(t));
      }
    }
  }

  // ---------------------------------------------------------------------
  // enhance_text
  // ---------------------------------------------------------------------

  /** Split-then-join yields single-spaced text drawn from the input's non-space characters. */
  lemma RespacedShape(s: string)
    ensures SingleSpaced(JoinSpace(SplitWords(s)))
    ensures forall c :: c in JoinSpace(SplitWords(s)) ==> c == ' ' || (c in s && !IsSpace(c))
  {
    var ws := SplitWords(s);
    SplitWordsTokens(s);
    JoinSpaceSingleSpaced(ws);
    forall c | c in JoinSpace(ws)
      ensures c == ' ' || (c in s && !IsSpace(c))
    {
      JoinSpaceChars(ws, c);
      if c != ' ' {
        var k :| 0 <= k < |ws| && c in ws[k];
        SplitWordsChars(s, k, c);
      }
    }
  }

  /** Re-spacing clean text with the shipped checker keeps it clean and makes it single-spaced. */
  lemma CorrectedKeepsCleanShape(s: string)
    requires '|' !in s && '0' !in s
    requires forall i :: 0 <= i < |s| ==> Allowed(s[i])
    ensures var r := CorrectedText(s, SimpleSpellChecker);
      && '|' !in r && '0' !in r && SingleSpaced(r)
      && forall i :: 0 <= i < |r| ==> Allowed(r[i])
  {
    ShippedCheckerOnlyRespaces(s);
    RespacedShape(s);
    var r := JoinSpace(SplitWords(s));
    forall i | 0 <= i < |r|
      ensures Allowed(r[i]) && r[i] != '|' && r[i] != '0'
    {
      var c := r[i];
      assert c in r;
      if c != ' ' {
        assert c in s;
        var j :| 0 <= j < |s| && s[j] == c;
        assert Allowed(s[j]);
      }
    }
  }

  /**
   * `enhance_text`: "" for empty or whitespace-only input, otherwise the
   * normalised text re-spaced by the shipped spell checker.
   */
  function EnhanceText(ocrText: string): (r: string)
    ensures ocrText == [] || IsBlank(ocrText) ==> r == []
    ensures '|' !in r && '0' !in r
    ensures forall i :: 0 <= i < |r| ==> Allowed(r[i])
    ensures SingleSpaced(r)
  {
    if ocrText == [] || IsBlank(ocrText) then []
    else
      var normalized := NormalizeText(ocrText);
      CorrectedKeepsCleanShape(normalized);
      CorrectedText(normalized, SimpleSpellChecker)
  }

  /** The tail of single-spaced-like text keeps both shapes, and a leading space is followed by a non-space. */
  lemma TailShapes(s: string)
    requires s != [] && OnlyPlainSpaces(s) && NoAdjacentSpaces(s)
    ensures OnlyPlainSpaces(s[1..]) && NoAdjacentSpaces(s[1..])
    ensures IsSpace(s[0]) ==> AfterFirstRun(s) == s[1..]
  {
    var tail := s[1..];
    assert forall i :: 0 <= i < |tail| ==> tail[i] == s[i + 1];
    if IsSpace(s[0]) && tail != [] {
      assert !(IsSpace(s[0]) && IsSpace(s[1]));
      assert DropLeadingSpaces(tail) == tail;
    }
  }

  /** Single-spaced text has nothing for CollapseSpaces to do. */
  lemma {:induction false} CollapseKeepsSingleSpaced(s: string)
    requires OnlyPlainSpaces(s) && NoAdjacentSpaces(s)
    ensures CollapseSpaces(s) == s
    decreases |s|
  {
    if s != [] {
      TailShapes(s);
      CollapseKeepsSingleSpaced(s[1..]);
      assert AfterFirstRun(s) == s[1..];
      assert s == [s[0]] + s[1..];
    }
  }

  /** KeepAllowed deletes nothing from text made of allowed characters. */
  lemma {:induction false} KeepAllowedKeepsAllowed(s: string)
    requires forall i :: 0 <= i < |s| ==> Allowed(s[i])
    ensures KeepAllowed(s) == s
  {
    if s != [] {
      KeepAllowedKeepsAllowed(s[1..]);
      assert s == [s[0]] + s[1..];
    }
  }

  /** Replacing a character that does not occur changes nothing. */
  lemma ReplaceAbsent(s: string, a: char, b: char)
    requires a !in s
    ensures ReplaceChar(s, a, b) == s
  {
    assert forall i :: 0 <= i < |s| ==> s[i] != a;
  }

  /** Stripping text with no whitespace at either end changes nothing. */
  lemma StripKeepsStripped(s: string)
    requires Stripped(s)
    ensures Strip(s) == s
  {
    assert DropLeadingSpaces(s) == s;
    assert DropTrailingSpaces(s) == s;
  }

  /** Normalising already-enhanced text changes nothing. */
  lemma NormalizeKeepsEnhanced(s: string)
    requires SingleSpaced(s) && '|' !in s && '0' !in s
    requires forall i :: 0 <= i < |s| ==> Allowed(s[i])
    ensures NormalizeText(s) == s
  {
    if s != [] {
      CollapseKeepsSingleSpaced(s);
      ReplaceAbsent(s, '|', 'I');
      ReplaceAbsent(s, '0', 'O');
      KeepAllowedKeepsAllowed(s);
      StripKeepsStripped(s);
    }
  }

  /** `enhance_text` is idempotent: enhancing its own output changes nothing. */
  lemma EnhanceIdempotent(ocrText: string)
    ensures EnhanceText(EnhanceText(ocrText)) == EnhanceText(ocrText)
  {
    var e := EnhanceText(ocrText);
    if e != [] {
      assert !IsSpace(e[0]);
      assert !IsBlank(e);
      NormalizeKeepsEnhanced(e);
      ShippedCheckerOnlyRespaces(e);
      JoinSplit(e);
    }
  }
}
