/**
 * The Python string built-ins that the ingestion step relies on, with the
 * semantics CPython gives them: `str.split(sep)` with an explicit separator,
 * `sep.join(...)`, `str.strip()` with no argument, and `str.replace` on single
 * characters. Strings are sequences of Unicode scalar values (code points
 * other than the surrogates).
 */
module PyStr {

  /** `c.isspace()`: the code points CPython treats as whitespace, which are the
      ones `str.strip()` removes when it is given no argument. */
  predicate IsSpace(c: char) {
    var n := c as int;
    || 0x09 <= n <= 0x0D
    || 0x1C <= n <= 0x20
    || n == 0x85 || n == 0xA0 || n == 0x1680
    || 0x2000 <= n <= 0x200A
    || n == 0x2028 || n == 0x2029 || n == 0x202F || n == 0x205F || n == 0x3000
  }

  ghost predicate AllSpace(s: string) {
    forall k :: 0 <= k < |s| ==> IsSpace(s[k])
  }

  /** No whitespace at either end: what `strip()` leaves behind. */
  predicate Stripped(s: string) {
    s == [] || (!IsSpace(s[0]) && !IsSpace(s[|s| - 1]))
  }

  // ---------------------------------------------------------------------------
  // s.split(sep) and sep.join(pieces)
  // ---------------------------------------------------------------------------

  /** `s.split(sep)` for a one-character separator. Unlike `split()` without an
      argument, it keeps empty pieces: `"".split(' ') == ['']` and
      `"a  b".split(' ') == ['a', '', 'b']`. There is always one more piece than
      there are separators, and no piece holds a separator. */
  function Split(s: string, sep: char): (pieces: seq<string>)
    ensures |pieces| >= 1
    ensures forall k :: 0 <= k < |pieces| ==> sep !in pieces[k]
    decreases |s|
  {
    if s == [] then [""]
    else if s[0] == sep then [""] + Split(s[1..], sep)
    else
      var rest := Split(s[1..], sep);
      [[s[0]] + rest[0]] + rest[1..]
  }

  /** There is one more piece than there are separators in the string. */
  lemma {:induction false} SplitCount(s: string, sep: char)
    ensures |Split(s, sep)| == multiset(s)[sep] + 1
    decreases |s|
  {
    if s != [] {
      SplitCount(s[1..], sep);
      assert s == [s[0]] + s[1..];
    }
  }

  /** `sep.join(pieces)` for a non-empty list of pieces. */
  function Join(pieces: seq<string>, sep: char): string
    requires |pieces| >= 1
    decreases |pieces|
  {
    if |pieces| == 1 then pieces[0] else pieces[0] + [sep] + Join(pieces[1..], sep)
  }

  /** Joining the pieces of a split gives back the original string. */
  lemma {:induction false} JoinSplit(s: string, sep: char)
    ensures Join(Split(s, sep), sep) == s
    decreases |s|
  {
    if s != [] {
      var rest := Split(s[1..], sep);
      JoinSplit(s[1..], sep);
      if s[0] == sep {
        assert ([""] + rest)[1..] == rest;
      } else {
        var r := [[s[0]] + rest[0]] + rest[1..];
        if |rest| > 1 {
          assert r[1..] == rest[1..];
        }
      }
    }
  }

  /** A string without the separator splits into itself alone. */
  lemma {:induction false} SplitNoSep(s: string, sep: char)
    requires sep !in s
    ensures Split(s, sep) == [s]
    decreases |s|
  {
    if s != [] {
      assert sep !in s[1..] by {
        forall k | 0 <= k < |s[1..]| ensures s[1..][k] != sep { assert s[1..][k] == s[k + 1]; }
      }
      SplitNoSep(s[1..], sep);
      assert s == [s[0]] + s[1..];
    }
  }

  /** `split` reads the string from the front: a separator closes the current
      piece, any other character extends it. */
  lemma SplitCons(c: char, rest: string, sep: char)
    ensures Split([c] + rest, sep) == if c == sep then [""] + Split(rest, sep)
                                      else [[c] + Split(rest, sep)[0]] + Split(rest, sep)[1..]
  {
    assert ([c] + rest)[1..] == rest;
  }

  /** A separator between two strings separates their pieces. */
  lemma {:induction false} SplitAppend(x: string, y: string, sep: char)
    ensures Split(x + [sep] + y, sep) == Split(x, sep) + Split(y, sep)
    decreases |x|
  {
    if x == [] {
      assert x + [sep] + y == [sep] + y;
      SplitCons(sep, y, sep);
    } else {
      var c, x' := x[0], x[1..];
      var ys, tail := Split(y, sep), Split(x', sep);
      assert x == [c] + x';
      assert x + [sep] + y == [c] + (x' + [sep] + y);
      if c == sep {
        calc {
          Split([c] + (x' + [sep] + y), sep);
          { SplitCons(c, x' + [sep] + y, sep); }
          [""] + Split(x' + [sep] + y, sep);
          { SplitAppend(x', y, sep); }
          [""] + (tail + ys);
          ([""] + tail) + ys;
          { SplitCons(c, x', sep); }
          Split([c] + x', sep) + ys;
        }
      } else {
        calc {
          Split([c] + (x' + [sep] + y), sep);
          { SplitCons(c, x' + [sep] + y, sep); }
          [[c] + Split(x' + [sep] + y, sep)[0]] + Split(x' + [sep] + y, sep)[1..];
          { SplitAppend(x', y, sep); }
          [[c] + (tail + ys)[0]] + (tail + ys)[1..];
          { assert (tail + ys)[0] == tail[0] && (tail + ys)[1..] == tail[1..] + ys; }
          [[c] + tail[0]] + (tail[1..] + ys);
          ([[c] + tail[0]] + tail[1..]) + ys;
          { SplitCons(c, x', sep); }
          Split([c] + x', sep) + ys;
        }
      }
    }
  }

  /** Splitting a join of separator-free pieces gives back those pieces: with
      JoinSplit, `split` and `join` are inverse to each other. */
  lemma {:induction false} SplitJoin(pieces: seq<string>, sep: char)
    requires |pieces| >= 1
    requires forall k :: 0 <= k < |pieces| ==> sep !in pieces[k]
    ensures Split(Join(pieces, sep), sep) == pieces
    decreases |pieces|
  {
    SplitNoSep(pieces[0], sep);
    if |pieces| > 1 {
      SplitJoin(pieces[1..], sep);
      SplitAppend(pieces[0], Join(pieces[1..], sep), sep);
    }
  }

  /** `t` occurs in `s` as a whole field: it starts at the beginning of `s` or
      just after a separator, and ends at the end of `s` or just before one. */
  ghost predicate IsField(s: string, t: string, sep: char) {
    exists i :: FieldAt(s, t, sep, i)
  }

  ghost predicate FieldAt(s: string, t: string, sep: char, i: int) {
    && 0 <= i <= |s| - |t| && s[i..i + |t|] == t
    && (i == 0 || s[i - 1] == sep) && (i + |t| == |s| || s[i + |t|] == sep)
  }

  /** The position of the first occurrence of `c` in `s`. */
  function IndexOf(s: string, c: char): (j: nat)
    requires c in s
    ensures j < |s| && s[j] == c && c !in s[..j]
    decreases |s|
  {
    if s[0] == c then 0
    else
      assert c in s[1..] by { var k :| 0 <= k < |s| && s[k] == c; assert s[1..][k - 1] == c; }
      var j := IndexOf(s[1..], c);
      assert s[..j + 1] == [s[0]] + s[1..][..j];
      j + 1
  }

  /** In a string without separators the only whole field is the string itself. */
  lemma FieldsNoSep(s: string, t: string, sep: char)
    requires sep !in s
    ensures IsField(s, t, sep) <==> t == s
  {
    if t == s {
      assert FieldAt(s, t, sep, 0);
    }
    if IsField(s, t, sep) {
      var i :| FieldAt(s, t, sep, i);
      assert i == 0 && i + |t| == |s|;
      assert t == s[0..|s|] == s;
    }
  }

  /** A field of `x + [sep] + y` (with `x` separator-free) is `x` itself or a
      field of `y`. */
  lemma FieldOfCons(x: string, y: string, t: string, sep: char, i: int)
    requires sep !in x && sep !in t
    requires FieldAt(x + [sep] + y, t, sep, i)
    ensures t == x || FieldAt(y, t, sep, i - |x| - 1)
  {
    var s := x + [sep] + y;
    var j := |x|;
    if i <= j {
      assert forall k :: 0 <= k < j ==> s[k] == x[k];
      assert i == 0;
      assert forall k :: 0 <= k < |t| ==> t[k] == s[k];
      assert s[j] == sep;
      assert |t| <= j;
      assert |t| == j;
      assert t == s[..j] == x;
    } else {
      var i' := i - j - 1;
      assert y[i'..i' + |t|] == s[i..i + |t|];
      assert i' == 0 || y[i' - 1] == sep by { if i' > 0 { assert y[i' - 1] == s[i - 1]; } }
      assert i' + |t| == |y| || y[i' + |t|] == sep by {
        if i' + |t| < |y| { assert y[i' + |t|] == s[i + |t|]; }
      }
    }
  }

  /** A field of `y` is still a field after `x + [sep]` is put in front of it. */
  lemma FieldShift(x: string, y: string, t: string, sep: char, i': int)
    requires FieldAt(y, t, sep, i')
    ensures FieldAt(x + [sep] + y, t, sep, i' + |x| + 1)
  {
    var s := x + [sep] + y;
    var i := i' + |x| + 1;
    assert s[i..i + |t|] == y[i'..i' + |t|];
    assert s[i - 1] == sep by { if i' > 0 { assert s[i - 1] == y[i' - 1]; } }
    assert i + |t| == |s| || s[i + |t|] == sep by {
      if i' + |t| < |y| { assert s[i + |t|] == y[i' + |t|]; }
    }
  }

  /** The pieces of `s.split(sep)` are exactly its whole fields: a reference
      definition of `split` in terms of positions in the string. */
  lemma {:induction false} SplitFields(s: string, t: string, sep: char)
    requires sep !in t
    ensures t in Split(s, sep) <==> IsField(s, t, sep)
    decreases |s|
  {
    if sep !in s {
      SplitNoSep(s, sep);
      FieldsNoSep(s, t, sep);
    } else {
      var j := IndexOf(s, sep);
      var x, y := s[..j], s[j + 1..];
      assert s == x + [sep] + y;
      SplitAppend(x, y, sep);
      SplitNoSep(x, sep);
      assert Split(s, sep) == [x] + Split(y, sep);
      SplitFields(y, t, sep);
      if t == x {
        assert s[0..|t|] == t && s[|t|] == sep;
        assert FieldAt(s, t, sep, 0);
      }
      if t in Split(y, sep) {
        var i' :| FieldAt(y, t, sep, i');
        FieldShift(x, y, t, sep, i');
      }
      if IsField(s, t, sep) {
        var i :| FieldAt(s, t, sep, i);
        FieldOfCons(x, y, t, sep, i);
      }
    }
  }

  // ---------------------------------------------------------------------------
  // s.strip()
  // ---------------------------------------------------------------------------

  /** `s.lstrip()`: drops the longest all-whitespace prefix. */
  function TrimStart(s: string): (r: string)
    ensures |r| <= |s|
    decreases |s|
  {
    if s != [] && IsSpace(s[0]) then TrimStart(s[1..]) else s
  }

  /** What `lstrip()` keeps is a suffix of the input that does not start with
      whitespace, and everything it drops is whitespace. */
  lemma {:induction false} TrimStartSpec(s: string)
    ensures var r := TrimStart(s);
            && r == s[|s| - |r|..]
            && (forall k :: 0 <= k < |s| - |r| ==> IsSpace(s[k]))
            && (r == [] || !IsSpace(r[0]))
    decreases |s|
  {
    if s != [] && IsSpace(s[0]) {
      TrimStartSpec(s[1..]);
      var r := TrimStart(s);
      forall k | 0 < k < |s| - |r| ensures IsSpace(s[k]) {
        assert s[k] == s[1..][k - 1];
      }
    }
  }

  /** `s.rstrip()`: drops the longest all-whitespace suffix. */
  function TrimEnd(s: string): (r: string)
    ensures |r| <= |s|
    decreases |s|
  {
    if s != [] && IsSpace(s[|s| - 1]) then TrimEnd(s[..|s| - 1]) else s
  }

  /** What `rstrip()` keeps is a prefix of the input that does not end with
      whitespace, and everything it drops is whitespace. */
  lemma {:induction false} TrimEndSpec(s: string)
    ensures var r := TrimEnd(s);
            && r == s[..|r|]
            && (forall k :: |r| <= k < |s| ==> IsSpace(s[k]))
            && (r == [] || !IsSpace(r[|r| - 1]))
    decreases |s|
  {
    if s != [] && IsSpace(s[|s| - 1]) {
      TrimEndSpec(s[..|s| - 1]);
      var r := TrimEnd(s);
      forall k | |r| <= k < |s| - 1 ensures IsSpace(s[k]) {
        assert s[k] == s[..|s| - 1][k];
      }
    }
  }

  /** `s.strip()`: drops the whitespace at both ends. */
  function Strip(s: string): (r: string)
    ensures |r| <= |s|
  {
    TrimEnd(TrimStart(s))
  }

  /** What `strip()` keeps has no whitespace at its ends, it is one slice
      `s[i..i + |r|]` of the input, and everything outside that slice is
      whitespace. */
  lemma StripSlice(s: string)
    ensures Stripped(Strip(s))
    ensures var r := Strip(s);
            exists i :: 0 <= i <= |s| - |r| && r == s[i..i + |r|]
                        && AllSpace(s[..i]) && AllSpace(s[i + |r|..])
  {
    var left := TrimStart(s);
    var r := TrimEnd(left);
    TrimStartSpec(s);
    TrimEndSpec(left);
    var i := |s| - |left|;
    assert r == s[i..i + |r|];
    var prefix, suffix := s[..i], s[i + |r|..];
    assert AllSpace(prefix) by {
      forall k | 0 <= k < |prefix| ensures IsSpace(prefix[k]) { assert prefix[k] == s[k]; }
    }
    assert AllSpace(suffix) by {
      forall k | 0 <= k < |suffix| ensures IsSpace(suffix[k]) { assert suffix[k] == left[|r| + k]; }
    }
    if r != [] {
      assert r[0] == left[0];
    }
  }

  /** Stripping a string that has no surrounding whitespace changes nothing. */
  lemma StripStripped(s: string)
    requires Stripped(s)
    ensures Strip(s) == s
  {
    assert TrimStart(s) == s;
  }

  /** `s.strip().strip() == s.strip()`. */
  lemma StripIdempotent(s: string)
    ensures Strip(Strip(s)) == Strip(s)
  {
    StripSlice(s);
    StripStripped(Strip(s));
  }

  /** A string made only of whitespace strips to the empty string. */
  lemma {:induction false} StripAllSpace(s: string)
    requires AllSpace(s)
    ensures Strip(s) == ""
    decreases |s|
  {
    if s != [] {
      assert AllSpace(s[1..]) by {
        forall k | 0 <= k < |s[1..]| ensures IsSpace(s[1..][k]) { assert s[1..][k] == s[k + 1]; }
      }
      StripAllSpace(s[1..]);
    }
  }

  // ---------------------------------------------------------------------------
  // s.replace(a, b) for one-character a and b
  // ---------------------------------------------------------------------------

  /** `s.replace(from, to)` where both are single characters. */
  function Replace(s: string, from: char, to: char): (r: string)
    ensures |r| == |s|
    decreases |s|
  {
    if s == [] then []
    else [if s[0] == from then to else s[0]] + Replace(s[1..], from, to)
  }

  /** Every occurrence of `from` becomes `to`, and every other character
      stays where it was. */
  lemma {:induction false} ReplaceAt(s: string, from: char, to: char)
    ensures forall k :: 0 <= k < |s| ==> Replace(s, from, to)[k] == (if s[k] == from then to else s[k])
    decreases |s|
  {
    if s != [] {
      ReplaceAt(s[1..], from, to);
      var r := Replace(s, from, to);
      forall k | 0 < k < |s| ensures r[k] == (if s[k] == from then to else s[k]) {
        assert r[k] == Replace(s[1..], from, to)[k - 1];
        assert s[k] == s[1..][k - 1];
      }
    }
  }

  /** After the replacement no `from` is left, and the positions of the old
      occurrences are exactly the positions now holding `to` that did not
      hold it before. */
  lemma ReplaceRemoves(s: string, from: char, to: char)
    requires from != to
    ensures from !in Replace(s, from, to)
    ensures forall k :: 0 <= k < |s| ==> (s[k] == from <==> Replace(s, from, to)[k] == to && s[k] != to)
  {
    ReplaceAt(s, from, to);
  }

  /** A string without `from` is left unchanged, so replacing twice is the same
      as replacing once. */
  lemma ReplaceIdempotent(s: string, from: char, to: char)
    requires from != to
    ensures Replace(s, from, to) == s <==> from !in s
    ensures Replace(Replace(s, from, to), from, to) == Replace(s, from, to)
  {
    var r := Replace(s, from, to);
    ReplaceRemoves(s, from, to);
    ReplaceAt(s, from, to);
    ReplaceAt(r, from, to);
    if from !in s {
      assert forall k :: 0 <= k < |s| ==> r[k] == s[k];
    }
    assert forall k :: 0 <= k < |r| ==> Replace(r, from, to)[k] == r[k];
  }
}
