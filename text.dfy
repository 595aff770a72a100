/**
  The parts of Python's `str` type that the three scripts rely on, on Dafny
  strings (sequences of Unicode scalar values): `strip`, `split()`,
  `split(sep)`, `sep.join`, `int()`, `str()` of an integer, `isdigit`,
  `startswith`, substring tests and `lower`.
*/
module Text {
  import opened Wrappers

  /** Python's `str.isspace()` for one character: exactly the code points that
      `strip()` removes and `split()` splits on. */
  predicate IsSpace(c: char) {
    || ('\t' <= c <= '\r')
    || ('\U{1C}' <= c <= ' ')
    || c == '\U{85}' || c == '\U{A0}' || c == '\U{1680}'
    || ('\U{2000}' <= c <= '\U{200A}')
    || c == '\U{2028}' || c == '\U{2029}' || c == '\U{202F}' || c == '\U{205F}' || c == '\U{3000}'
  }

  /** An ASCII decimal digit. */
  predicate IsDigit(c: char) {
    '0' <= c <= '9'
  }

  /** A non-empty run of non-whitespace characters: what `str.split()` yields. */
  predicate IsWord(w: string) {
    |w| > 0 && forall i :: 0 <= i < |w| ==> !IsSpace(w[i])
  }

  predicate StartsWith(s: string, prefix: string) {
    |prefix| <= |s| && s[..|prefix|] == prefix
  }

  /** Python's `t in s` for two strings. */
  predicate Contains(s: string, t: string) {
    exists i :: 0 <= i <= |s| - |t| && StartsWith(s[i..], t)
  }

  /** Every character of a substring occurs in the string: the usual way to
      show that a literal keyword is absent from a literal context. */
  lemma ContainsChars(s: string, t: string)
    ensures Contains(s, t) ==> forall c :: c in t ==> c in s
  {
    if Contains(s, t) {
      var i :| 0 <= i <= |s| - |t| && StartsWith(s[i..], t);
      forall c | c in t
        ensures c in s
      {
        var k :| 0 <= k < |t| && t[k] == c;
        assert s[i + k] == s[i..][k];
      }
    }
  }

  /** Between strings of the same length, containment is equality. */
  lemma ContainsSameLength(s: string, t: string)
    requires |s| == |t|
    ensures Contains(s, t) <==> s == t
  {
    if s == t {
      assert StartsWith(s[0..], t);
    }
  }

  /** A string contains its own prefixes. */
  lemma ContainsPrefix(s: string, t: string)
    requires StartsWith(s, t)
    ensures Contains(s, t)
  {
    assert s[0..] == s;
  }

  // ---------------------------------------------------------------- strip

  /** Python's `s.lstrip()`. */
  function StripStart(s: string): (r: string)
    ensures |r| <= |s|
    ensures r == [] || !IsSpace(r[0])
  {
    if |s| > 0 && IsSpace(s[0]) then StripStart(s[1..]) else s
  }

  /** Python's `s.rstrip()`. */
  function StripEnd(s: string): (r: string)
    ensures |r| <= |s|
    ensures r == [] || !IsSpace(r[|r| - 1])
  {
    if |s| > 0 && IsSpace(s[|s| - 1]) then StripEnd(s[..|s| - 1]) else s
  }

  /** `lstrip()` drops only whitespace. */
  lemma {:induction false} StripStartDropsSpace(s: string)
    ensures forall i :: 0 <= i < |s| - |StripStart(s)| ==> IsSpace(s[i])
  {
    if |s| > 0 && IsSpace(s[0]) {
      StripStartDropsSpace(s[1..]);
      assert forall i :: 1 <= i < |s| - |StripStart(s)| ==> s[i] == s[1..][i - 1];
    }
  }

  /** `rstrip()` drops only whitespace. */
  lemma {:induction false} StripEndDropsSpace(s: string)
    ensures forall i :: |StripEnd(s)| <= i < |s| ==> IsSpace(s[i])
  {
    if |s| > 0 && IsSpace(s[|s| - 1]) {
      StripEndDropsSpace(s[..|s| - 1]);
      assert forall i :: |StripEnd(s)| <= i < |s| - 1 ==> s[i] == s[..|s| - 1][i];
    }
  }

  /** What `lstrip()` keeps is a suffix of its argument. */
  lemma {:induction false} StripStartIsSuffix(s: string)
    ensures StripStart(s) == s[|s| - |StripStart(s)|..]
  {
    if |s| > 0 && IsSpace(s[0]) {
      StripStartIsSuffix(s[1..]);
    }
  }

  /** What `rstrip()` keeps is a prefix of its argument. */
  lemma {:induction false} StripEndIsPrefix(s: string)
    ensures StripEnd(s) == s[..|StripEnd(s)|]
    decreases |s|
  {
    if |s| > 0 && IsSpace(s[|s| - 1]) {
      StripEndIsPrefix(s[..|s| - 1]);
    }
  }

  /** Python's `s.strip()`: the slice of `s` left after dropping whitespace at
      both ends. */
  function Strip(s: string): (r: string)
    ensures |r| <= |s|
    ensures r == [] || (!IsSpace(r[0]) && !IsSpace(r[|r| - 1]))
  {
    StripStartIsSuffix(s);
    StripEndIsPrefix(StripStart(s));
    StripEnd(StripStart(s))
  }

  /** `strip()` gives the empty string exactly when every character is
      whitespace. */
  lemma StripEmpty(s: string)
    ensures Strip(s) == [] <==> forall i :: 0 <= i < |s| ==> IsSpace(s[i])
  {
    StripStartIsSuffix(s);
    StripStartDropsSpace(s);
    StripEndIsPrefix(StripStart(s));
    StripEndDropsSpace(StripStart(s));
  }

  /** A string that has no whitespace at either end is its own strip. */
  lemma StripUnpadded(s: string)
    requires s == [] || (!IsSpace(s[0]) && !IsSpace(s[|s| - 1]))
    ensures Strip(s) == s
  {
  }

  /** Stripping a string padded by one space on each side gives it back. */
  lemma StripPadded(s: string)
    requires s != [] && !IsSpace(s[0]) && !IsSpace(s[|s| - 1])
    ensures Strip(" " + s + " ") == s
  {
    var p := " " + s + " ";
    assert p[1..] == s + " ";
    assert StripStart(p) == StripStart(s + " ") == s + " ";
    assert (s + " ")[..|s|] == s;
    assert StripEnd(s + " ") == StripEnd(s) == s;
  }

  // ------------------------------------------------------- split() and join

  /** The length of the leading run of non-whitespace characters. */
  function WordEnd(s: string): (k: nat)
    ensures k <= |s|
    ensures forall i :: 0 <= i < k ==> !IsSpace(s[i])
    ensures k < |s| ==> IsSpace(s[k])
  {
    if |s| == 0 || IsSpace(s[0]) then 0 else 1 + WordEnd(s[1..])
  }

  /** Python's `s.split()` (no separator): the maximal runs of non-whitespace
      characters, in order; never an empty string. */
  function SplitWords(s: string): (r: seq<string>)
    ensures forall w <- r :: IsWord(w)
    decreases |s|
  {
    var t := StripStart(s);
    if t == [] then []
    else
      var k := WordEnd(t);
      [t[..k]] + SplitWords(t[k..])
  }

  /** Python's `sep.join(parts)` for a one-character separator. */
  function Join(parts: seq<string>, sep: char): string {
    if |parts| == 0 then ""
    else if |parts| == 1 then parts[0]
    else parts[0] + [sep] + Join(parts[1..], sep)
  }

  /** Joining words with single spaces gives a string that starts and ends
      with a word character, and is empty only for no words. */
  lemma {:induction false} JoinWordsEnds(ws: seq<string>)
    requires forall w <- ws :: IsWord(w)
    ensures Join(ws, ' ') == [] <==> ws == []
    ensures ws != [] ==> !IsSpace(Join(ws, ' ')[0]) && !IsSpace(Join(ws, ' ')[|Join(ws, ' ')| - 1])
  {
    if |ws| > 1 {
      JoinWordsEnds(ws[1..]);
      assert ws[0] in ws && ws[1] in ws;
      var j := Join(ws, ' ');
      assert j == ws[0] + [' '] + Join(ws[1..], ' ');
      assert j[0] == ws[0][0];
      assert j[|j| - 1] == Join(ws[1..], ' ')[|Join(ws[1..], ' ')| - 1];
    } else if |ws| == 1 {
      assert ws[0] in ws;
    }
  }

  /** Leading whitespace does not change how a string splits into words. */
  lemma SplitWordsSpace(s: string)
    ensures SplitWords(" " + s) == SplitWords(s)
  {
    assert (" " + s)[1..] == s;
  }

  /** A word followed by nothing or by whitespace ends exactly where the word
      does. */
  lemma {:induction false} WordEndPrefix(w: string, rest: string)
    requires IsWord(w) && (rest == [] || IsSpace(rest[0]))
    ensures WordEnd(w + rest) == |w|
  {
    assert (w + rest)[1..] == w[1..] + rest;
    if |w| > 1 {
      WordEndPrefix(w[1..], rest);
    }
  }

  /** A word at the front of a string is the first thing `split()` yields. */
  lemma SplitWordsCons(w: string, rest: string)
    requires IsWord(w) && (rest == [] || IsSpace(rest[0]))
    ensures SplitWords(w + rest) == [w] + SplitWords(rest)
  {
    var s := w + rest;
    assert s[0] == w[0];
    assert StripStart(s) == s;
    WordEndPrefix(w, rest);
    assert s[..|w|] == w && s[|w|..] == rest;
  }

  /** Splitting words joined by single spaces gives the words back: the
      inverse of `' '.join`. */
  lemma {:induction false} SplitWordsJoin(ws: seq<string>)
    requires forall w <- ws :: IsWord(w)
    ensures SplitWords(Join(ws, ' ')) == ws
  {
    if ws != [] {
      var w := ws[0];
      assert w in ws;
      if |ws| == 1 {
        assert Join(ws, ' ') == w;
        assert SplitWords("") == [];
        SplitWordsCons(w, "");
        assert w + "" == w;
        assert ws == [w];
      } else {
        var rest := Join(ws[1..], ' ');
        calc {
          SplitWords(Join(ws, ' '));
          { assert Join(ws, ' ') == w + (" " + rest); }
          SplitWords(w + (" " + rest));
          { SplitWordsCons(w, " " + rest); }
          [w] + SplitWords(" " + rest);
          { SplitWordsSpace(rest); }
          [w] + SplitWords(rest);
          { SplitWordsJoin(ws[1..]); }
          [w] + ws[1..];
        }
      }
    }
  }

  /** Trailing whitespace does not change how a string splits into words. */
  lemma {:induction false} SplitWordsTrailing(s: string, pad: string)
    requires forall i :: 0 <= i < |pad| ==> IsSpace(pad[i])
    ensures SplitWords(s + pad) == SplitWords(s)
    decreases |s|
  {
    var t := StripStart(s);
    StripStartAppend(s, pad);
    if t != [] {
      var k := WordEnd(t);
      assert SplitWords(s) == [t[..k]] + SplitWords(t[k..]);
      assert SplitWords(s + pad) == [t[..k]] + SplitWords(t[k..] + pad) by {
        WordEndAppend(t, pad);
        SliceAppend(t, pad, k);
      }
      SplitWordsTrailing(t[k..], pad);
    }
  }

  /** Slicing a concatenation inside its first part. */
  lemma SliceAppend(a: string, b: string, k: nat)
    requires k <= |a|
    ensures (a + b)[..k] == a[..k] && (a + b)[k..] == a[k..] + b
  {
  }

  /** Concatenation is associative. */
  lemma AppendAssoc<T>(a: seq<T>, b: seq<T>, c: seq<T>)
    ensures (a + b) + c == a + (b + c)
  {
  }

  /** An element of none of three sequences is not in their concatenation. */
  lemma NotInConcat<T>(v: T, a: seq<T>, b: seq<T>, c: seq<T>)
    requires v !in a && v !in b && v !in c
    ensures v !in a + b + c
  {
  }

  lemma SliceThree<T>(s: seq<T>, p: nat, a: nat, e: nat)
    requires p <= a <= e <= |s|
    ensures s[p..] == s[p..a] + s[a..e] + s[e..]
  {
  }

  /** Two concatenations equal to each other, whose first parts have the same
      length, agree on those parts and on the rest. */
  lemma AppendCancel<T>(x: seq<T>, y: seq<T>, u: seq<T>, w: seq<T>)
    requires x + y == u + w && |x| == |u|
    ensures x == u && y == w
  {
    assert x == (x + y)[..|x|] && u == (u + w)[..|u|];
    assert y == (x + y)[|x|..] && w == (u + w)[|u|..];
  }

  lemma {:induction false} StripStartAppend(s: string, pad: string)
    requires forall i :: 0 <= i < |pad| ==> IsSpace(pad[i])
    ensures StripStart(s) != [] ==> StripStart(s + pad) == StripStart(s) + pad
    ensures StripStart(s) == [] ==> StripStart(s + pad) == []
    decreases |s|
  {
    if |s| == 0 {
      assert s + pad == pad;
      StripStartAllSpace(pad);
    } else if IsSpace(s[0]) {
      assert (s + pad)[1..] == s[1..] + pad;
      StripStartAppend(s[1..], pad);
    }
  }

  lemma StripStartAllSpace(s: string)
    requires forall i :: 0 <= i < |s| ==> IsSpace(s[i])
    ensures StripStart(s) == []
  {
  }

  lemma {:induction false} WordEndAppend(t: string, pad: string)
    requires forall i :: 0 <= i < |pad| ==> IsSpace(pad[i])
    ensures WordEnd(t + pad) == WordEnd(t)
  {
    if |t| == 0 {
      assert t + pad == pad;
    } else if !IsSpace(t[0]) {
      assert (t + pad)[1..] == t[1..] + pad;
      WordEndAppend(t[1..], pad);
    }
  }

  /** `split()` ignores whitespace at both ends, so splitting the stripped
      string gives the same words. */
  lemma SplitWordsStrip(s: string)
    ensures SplitWords(Strip(s)) == SplitWords(s)
  {
    var t := StripStart(s);
    var r := StripEnd(t);
    StripEndIsPrefix(t);
    StripEndDropsSpace(t);
    assert t == r + t[|r|..];
    SplitWordsTrailing(r, t[|r|..]);
    assert StripStart(t) == t;
  }

  // ------------------------------------------------------------ split(sep)

  /** Python's `s.split(sep)` for a one-character separator: never an empty
      list, and empty fields are kept. */
  function SplitOn(s: string, sep: char): (r: seq<string>)
    ensures |r| >= 1
    ensures forall p <- r :: sep !in p
  {
    if s == [] then [""]
    else
      var rest := SplitOn(s[1..], sep);
      if s[0] == sep then [""] + rest
      else [[s[0]] + rest[0]] + rest[1..]
  }

  /** Splitting a separator-free prefix off: it becomes the start of the
      first field. */
  lemma {:induction false} SplitOnAppend(a: string, b: string, sep: char)
    requires sep !in a
    ensures SplitOn(a + b, sep) == [a + SplitOn(b, sep)[0]] + SplitOn(b, sep)[1..]
  {
    var r := SplitOn(b, sep);
    if a != [] {
      assert (a + b)[1..] == a[1..] + b;
      SplitOnAppend(a[1..], b, sep);
      assert a[0] != sep by { assert a[0] in a; }
      var rest := SplitOn(a[1..] + b, sep);
      assert rest == [a[1..] + r[0]] + r[1..];
      assert SplitOn(a + b, sep) == [[a[0]] + rest[0]] + rest[1..];
      assert [a[0]] + (a[1..] + r[0]) == a + r[0];
    } else {
      assert a + b == b;
      assert a + r[0] == r[0];
    }
  }

  /** `split(sep)` undoes `sep.join` when no part contains the separator. */
  lemma {:induction false} SplitOnJoin(parts: seq<string>, sep: char)
    requires |parts| >= 1
    requires forall p <- parts :: sep !in p
    ensures SplitOn(Join(parts, sep), sep) == parts
  {
    assert parts[0] in parts;
    if |parts| == 1 {
      SplitOnAppend(parts[0], "", sep);
      assert parts[0] + "" == parts[0];
    } else {
      var rest := Join(parts[1..], sep);
      assert Join(parts, sep) == parts[0] + ([sep] + rest);
      SplitOnAppend(parts[0], [sep] + rest, sep);
      SplitOnCons(sep, rest, sep);
      SplitOnJoin(parts[1..], sep);
      assert parts[0] + "" == parts[0];
      assert parts == [parts[0]] + parts[1..];
    }
  }

  /** `sep.join` undoes `split(sep)`. */
  lemma {:induction false} JoinSplitOn(s: string, sep: char)
    ensures Join(SplitOn(s, sep), sep) == s
  {
    if s != [] {
      var rest := SplitOn(s[1..], sep);
      JoinSplitOn(s[1..], sep);
      if s[0] == sep {
        assert Join([""] + rest, sep) == "" + [sep] + Join(rest, sep);
      } else {
        var r := SplitOn(s, sep);
        assert r[1..] == rest[1..];
        if |rest| == 1 {
          assert Join(r, sep) == [s[0]] + rest[0];
        } else {
          assert Join(rest, sep) == rest[0] + [sep] + Join(rest[1..], sep);
          assert Join(r, sep) == [s[0]] + rest[0] + [sep] + Join(rest[1..], sep);
        }
      }
    }
  }

  /** Splitting at a separator: the fields of `a`, then the fields of `b`. */
  lemma {:induction false} SplitOnConcat(a: string, b: string, sep: char)
    ensures SplitOn(a + [sep] + b, sep) == SplitOn(a, sep) + SplitOn(b, sep)
  {
    if a == [] {
      assert a + [sep] + b == [sep] + b;
      SplitOnCons(sep, b, sep);
    } else {
      var t := a[1..];
      assert a == [a[0]] + t;
      assert a + [sep] + b == [a[0]] + (t + [sep] + b);
      SplitOnConcat(t, b, sep);
      SplitOnCons(a[0], t, sep);
      SplitOnCons(a[0], t + [sep] + b, sep);
      ConsFields(a[0], sep, SplitOn(t, sep), SplitOn(b, sep));
    }
  }

  /** Putting one character in front of the fields `x` and then appending
      the fields `y` is appending `y` to the fields after that character. */
  lemma ConsFields(c: char, sep: char, x: seq<string>, y: seq<string>)
    requires |x| >= 1
    ensures (if c == sep then [""] + (x + y) else [[c] + (x + y)[0]] + (x + y)[1..])
         == (if c == sep then [""] + x else [[c] + x[0]] + x[1..]) + y
  {
    assert (x + y)[1..] == x[1..] + y;
  }

  /** One character more in front: a separator opens an empty field, any
      other character joins the first field. */
  lemma SplitOnCons(c: char, s: string, sep: char)
    ensures SplitOn([c] + s, sep)
         == if c == sep then [""] + SplitOn(s, sep)
            else [[c] + SplitOn(s, sep)[0]] + SplitOn(s, sep)[1..]
  {
    assert ([c] + s)[1..] == s;
  }

  /** Trailing whitespace is stripped only from the part after a non-space. */
  lemma {:induction false} StripEndAfter(a: string, b: string)
    requires a != [] && !IsSpace(a[|a| - 1])
    ensures StripEnd(a + b) == a + StripEnd(b)
    decreases |b|
  {
    if b == [] {
      assert a + b == a;
    } else if IsSpace(b[|b| - 1]) {
      assert (a + b)[..|a + b| - 1] == a + b[..|b| - 1];
      StripEndAfter(a, b[..|b| - 1]);
    }
  }

  /** A character found in no part, and different from the separator, is not
      in the joined string. */
  lemma {:induction false} JoinExcludes(parts: seq<string>, sep: char, c: char)
    requires c != sep && forall p <- parts :: c !in p
    ensures c !in Join(parts, sep)
  {
    if |parts| > 1 {
      assert parts[0] in parts;
      JoinExcludes(parts[1..], sep, c);
    } else if |parts| == 1 {
      assert parts[0] in parts;
    }
  }

  /** The joined string starts with the first part's first character. */
  lemma JoinFirst(parts: seq<string>, sep: char)
    requires |parts| >= 1 && parts[0] != []
    ensures Join(parts, sep) != [] && Join(parts, sep)[0] == parts[0][0]
  {
    if |parts| > 1 {
      assert Join(parts, sep) == parts[0] + ([sep] + Join(parts[1..], sep));
    }
  }

  /** The joined string ends with the last part's last character. */
  lemma {:induction false} JoinLastChar(parts: seq<string>, sep: char)
    requires |parts| >= 1 && parts[|parts| - 1] != []
    ensures var j := Join(parts, sep);
            j != [] && j[|j| - 1] == parts[|parts| - 1][|parts[|parts| - 1]| - 1]
  {
    if |parts| > 1 {
      var rest := Join(parts[1..], sep);
      JoinLastChar(parts[1..], sep);
      assert Join(parts, sep) == (parts[0] + [sep]) + rest;
    }
  }

  /** A string without the separator is a single field. */
  lemma SplitOnNoSep(s: string, sep: char)
    requires sep !in s
    ensures SplitOn(s, sep) == [s]
  {
    SplitOnAppend(s, "", sep);
    assert s + "" == s;
  }

  /** A string holding the separator splits into at least two fields. */
  lemma {:induction false} SplitOnSep(s: string, sep: char)
    requires sep in s
    ensures |SplitOn(s, sep)| >= 2
  {
    if s[0] != sep {
      assert sep in s[1..] by {
        var k :| 0 <= k < |s| && s[k] == sep;
        assert s[1..][k - 1] == sep;
      }
      SplitOnSep(s[1..], sep);
    }
  }

  /** Once the first field has ended, what follows does not change it. */
  lemma {:induction false} SplitOnFirstField(t: string, post: string, sep: char)
    requires sep in t
    ensures SplitOn(t + post, sep)[0] == SplitOn(t, sep)[0]
  {
    if t[0] == sep {
      assert (t + post)[0] == sep;
    } else {
      assert (t + post)[1..] == t[1..] + post;
      assert sep in t[1..] by {
        var k :| 0 <= k < |t| && t[k] == sep;
        assert t[1..][k - 1] == sep;
      }
      SplitOnFirstField(t[1..], post, sep);
    }
  }

  /** `strip()` keeps the slice of `s` that starts after the leading
      whitespace. */
  lemma StripSlice(s: string)
    ensures var a := |s| - |StripStart(s)|;
            && 0 <= a <= a + |Strip(s)| <= |s|
            && Strip(s) == s[a..a + |Strip(s)|]
  {
    var t := StripStart(s);
    StripStartIsSuffix(s);
    var a := |s| - |t|;
    var r := StripEnd(t);
    assert r == Strip(s);
    StripEndIsPrefix(t);
    assert t[..|r|] == s[a..a + |r|];
  }

  /** A string is its leading whitespace, its strip, and its trailing
      whitespace. */
  lemma StripParts(s: string)
    ensures var a := |s| - |StripStart(s)|;
            var b := a + |Strip(s)|;
            && 0 <= a <= b <= |s|
            && s == s[..a] + Strip(s) + s[b..]
            && (forall i :: 0 <= i < a ==> IsSpace(s[i]))
            && (forall i :: b <= i < |s| ==> IsSpace(s[i]))
  {
    var t := StripStart(s);
    var a := |s| - |t|;
    var b := a + |Strip(s)|;
    StripSlice(s);
    SliceThree(s, 0, a, b);
    assert s[0..] == s && s[0..a] == s[..a];
    StripStartDropsSpace(s);
    StripStartIsSuffix(s);
    StripEndDropsSpace(t);
    forall i | b <= i < |s|
      ensures IsSpace(s[i])
    {
      assert s[i] == t[i - a];
    }
  }

  /** Leading whitespace does not change what `lstrip()` keeps. */
  lemma {:induction false} StripStartSpaces(pre: string, s: string)
    requires forall i :: 0 <= i < |pre| ==> IsSpace(pre[i])
    ensures StripStart(pre + s) == StripStart(s)
  {
    if pre != [] {
      assert (pre + s)[0] == pre[0];
      assert (pre + s)[1..] == pre[1..] + s;
      StripStartSpaces(pre[1..], s);
    } else {
      assert pre + s == s;
    }
  }

  // --------------------------------------------------------------- integers

  /** Python's `s.isdigit()`, restricted to ASCII digits. */
  predicate IsDigits(s: string) {
    |s| > 0 && forall i :: 0 <= i < |s| ==> IsDigit(s[i])
  }

  function DigitValue(c: char): nat
    requires IsDigit(c)
  {
    c as int - '0' as int
  }

  function DigitChar(d: nat): (c: char)
    requires d < 10
    ensures IsDigit(c) && DigitValue(c) == d
  {
    ('0' as int + d) as char
  }

  /** The value of a string of decimal digits, most significant first. */
  function DigitsValue(s: string): nat
    requires forall i :: 0 <= i < |s| ==> IsDigit(s[i])
  {
    if s == [] then 0 else 10 * DigitsValue(s[..|s| - 1]) + DigitValue(s[|s| - 1])
  }

  /** Python's `str(n)` for n >= 0. */
  function NatToString(n: nat): (r: string)
    ensures IsDigits(r) && DigitsValue(r) == n
  {
    if n < 10 then [DigitChar(n)]
    else
      var p := NatToString(n / 10);
      var r := p + [DigitChar(n % 10)];
      assert r[..|r| - 1] == p;
      r
  }

  /** Python's `str(n)` for any integer. */
  function IntToString(n: int): (r: string)
    ensures r != [] && (IsDigit(r[0]) || r[0] == '-')
    ensures forall i :: 0 <= i < |r| ==> IsDigit(r[i]) || r[i] == '-'
  {
    if n < 0 then "-" + NatToString(-n) else NatToString(n)
  }

  /** Python's `int(s)`: surrounding whitespace, an optional sign and at least
      one decimal digit; anything else raises ValueError, here None. */
  function ParseInt(s: string): Option<int> {
    var t := Strip(s);
    if |t| > 0 && (t[0] == '+' || t[0] == '-') then
      if IsDigits(t[1..]) then
        Some(if t[0] == '-' then -(DigitsValue(t[1..]) as int) else DigitsValue(t[1..]))
      else None
    else if IsDigits(t) then Some(DigitsValue(t))
    else None
  }

  /** `int(str(n)) == n`. */
  lemma ParseIntToString(n: int)
    ensures ParseInt(IntToString(n)) == Some(n)
  {
    var r := IntToString(n);
    assert !IsSpace(r[0]) && !IsSpace(r[|r| - 1]);
    StripUnpadded(r);
    if n < 0 {
      assert r[1..] == NatToString(-n);
    }
  }

  /** `int()` ignores leading whitespace. */
  lemma ParseIntSpaces(pre: string, s: string)
    requires forall i :: 0 <= i < |pre| ==> IsSpace(pre[i])
    ensures ParseInt(pre + s) == ParseInt(s)
  {
    StripStartSpaces(pre, s);
  }

  // -------------------------------------------------------------- lower()

  function LowerChar(c: char): char {
    if 'A' <= c <= 'Z' then (c as int + 32) as char else c
  }

  /** Python's `s.lower()`, for the ASCII letters. */
  function Lower(s: string): (r: string)
    ensures |r| == |s| && forall i :: 0 <= i < |s| ==> r[i] == LowerChar(s[i])
  {
    if s == [] then [] else [LowerChar(s[0])] + Lower(s[1..])
  }

  /** Lowering twice is lowering once. */
  lemma LowerTwice(s: string)
    ensures Lower(Lower(s)) == Lower(s)
  {
  }
}
