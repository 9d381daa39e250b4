/** The Python string built-ins the bot relies on, over strings of code points
    (`len` in Python counts code points, as `|s|` does here). */
module Text {

  /** Python's `str.isspace()` for one character: the characters `str.strip()` removes. */
  predicate IsSpace(c: char)
  {
    c == ' ' || ('\t' <= c <= '\r') || ('\U{1C}' <= c <= '\U{1F}') ||
    c == '\U{85}' || c == '\U{A0}' || c == '\U{1680}' || ('\U{2000}' <= c <= '\U{200A}') ||
    c == '\U{2028}' || c == '\U{2029}' || c == '\U{202F}' || c == '\U{205F}' || c == '\U{3000}'
  }

  /** True when `s` is blank: Python's `not s.strip()`. */
  predicate AllSpace(s: string)
  {
    forall i :: 0 <= i < |s| ==> IsSpace(s[i])
  }

  /** A blank string stays blank with a whitespace character in front. */
  lemma AllSpaceCons(c: char, t: string)
    requires IsSpace(c) && AllSpace(t)
    ensures AllSpace([c] + t)
  {
  }

  /** A blank string stays blank with a whitespace character at its end. */
  lemma AllSpaceSnoc(t: string, c: char)
    requires AllSpace(t) && IsSpace(c)
    ensures AllSpace(t + [c])
  {
  }

  /** `s` with its leading whitespace removed (Python's `str.lstrip()`). */
  function TrimLeft(s: string): (r: string)
    ensures |r| <= |s| && r == s[|s| - |r|..]
    ensures r != [] ==> !IsSpace(r[0])
    ensures AllSpace(s[..|s| - |r|])
  {
    if s != [] && IsSpace(s[0]) then
      var r := TrimLeft(s[1..]);
      assert s[..|s| - |r|] == [s[0]] + s[1..][..|s| - 1 - |r|];
      AllSpaceCons(s[0], s[1..][..|s| - 1 - |r|]);
      r
    else s
  }

  /** `s` with its trailing whitespace removed (Python's `str.rstrip()`). */
  function TrimRight(s: string): (r: string)
    ensures |r| <= |s| && r == s[..|r|]
    ensures r != [] ==> !IsSpace(r[|r| - 1])
    ensures AllSpace(s[|r|..])
  {
    if s != [] && IsSpace(s[|s| - 1]) then
      var r := TrimRight(s[..|s| - 1]);
      assert s[|r|..] == s[..|s| - 1][|r|..] + [s[|s| - 1]];
      AllSpaceSnoc(s[..|s| - 1][|r|..], s[|s| - 1]);
      r
    else s
  }

  /** Every character of a slice occurs in the whole string. */
  lemma SliceChars(s: string, i: int, j: int)
    requires 0 <= i <= j <= |s|
    ensures forall c :: c in s[i..j] ==> c in s
  {
    forall c | c in s[i..j]
      ensures c in s
    {
      var k :| 0 <= k < j - i && s[i..j][k] == c;
      assert s[i + k] == c;
    }
  }

  /** `r` is the part of `s` starting at `a`, with only whitespace before and after it. */
  predicate MiddleAt(s: string, r: string, a: int)
  {
    0 <= a <= |s| - |r| && r == s[a..a + |r|] && AllSpace(s[..a]) && AllSpace(s[a + |r|..])
  }

  /** Python's `str.strip()`: the contiguous middle of `s` left once the
      whitespace around it is removed (`StripIsTrimmedMiddle` proves that it is
      exactly that middle). */
  function Strip(s: string): (r: string)
    ensures |r| <= |s|
    ensures r != [] ==> !IsSpace(r[0]) && !IsSpace(r[|r| - 1])
    ensures r == [] <==> AllSpace(s)
    ensures forall c :: c in r ==> c in s
  {
    var t := TrimLeft(s);
    var r := TrimRight(t);
    SliceChars(t, 0, |r|);
    SliceChars(s, |s| - |t|, |s|);
    r
  }

  /** Neither end of `r` is whitespace. */
  predicate Trimmed(r: string)
  {
    r == [] || (!IsSpace(r[0]) && !IsSpace(r[|r| - 1]))
  }

  /** The characters around a middle part are whitespace, and the middle part
      is `s` read from `a`. */
  lemma SpaceAround(s: string, r: string, a: int)
    requires MiddleAt(s, r, a)
    ensures forall i :: 0 <= i < a ==> IsSpace(s[i])
    ensures forall i :: a + |r| <= i < |s| ==> IsSpace(s[i])
    ensures forall k :: 0 <= k < |r| ==> s[a + k] == r[k]
  {
    forall i | 0 <= i < a
      ensures IsSpace(s[i])
    {
      assert s[..a][i] == s[i];
    }
    forall i | a + |r| <= i < |s|
      ensures IsSpace(s[i])
    {
      assert s[a + |r|..][i - a - |r|] == s[i];
    }
  }

  /** A string has at most one middle part without whitespace at its ends. */
  lemma MiddleUnique(s: string, r: string, a: int, r2: string, a2: int)
    requires MiddleAt(s, r, a) && Trimmed(r)
    requires MiddleAt(s, r2, a2) && Trimmed(r2)
    ensures r == r2
  {
    SpaceAround(s, r, a);
    SpaceAround(s, r2, a2);
    if r != [] && r2 != [] {
      assert a == a2;
      assert a + |r| == a2 + |r2|;
    }
  }

  /** `Strip(s)` is the part of `s` after its leading whitespace. */
  lemma StripIsMiddle(s: string)
    ensures MiddleAt(s, Strip(s), |s| - |TrimLeft(s)|)
  {
    TrimsMiddle(s);
  }

  /** Trimming the left and then the right leaves the middle part. */
  lemma TrimsMiddle(s: string)
    ensures MiddleAt(s, TrimRight(TrimLeft(s)), |s| - |TrimLeft(s)|)
  {
    MiddleOfSuffix(s, TrimLeft(s), TrimRight(TrimLeft(s)));
  }

  /** A prefix `r` of a suffix `t` of `s`, with only whitespace before `t` and
      after `r` in `t`, is a middle part of `s`. */
  lemma MiddleOfSuffix(s: string, t: string, r: string)
    requires |t| <= |s| && t == s[|s| - |t|..] && AllSpace(s[..|s| - |t|])
    requires |r| <= |t| && r == t[..|r|] && AllSpace(t[|r|..])
    ensures MiddleAt(s, r, |s| - |t|)
  {
    SuffixSlices(s, |s| - |t|, |r|);
  }

  /** Slices of a suffix are slices of the whole. */
  lemma SuffixSlices(s: string, a: int, n: int)
    requires 0 <= a && 0 <= n && a + n <= |s|
    ensures s[a..][..n] == s[a..a + n] && s[a..][n..] == s[a + n..]
  {
  }


  /** `str.strip()` exactly: `r` is the stripped `s` if and only if `r` is a
      contiguous part of `s` with only whitespace around it and none at its
      own ends. */
  lemma {:induction false} StripIsTrimmedMiddle(s: string, r: string)
    ensures r == Strip(s) <==> Trimmed(r) && exists a :: MiddleAt(s, r, a)
  {
    var a0 := |s| - |TrimLeft(s)|;
    StripIsMiddle(s);
    if r == Strip(s) {
      assert Trimmed(r) && MiddleAt(s, r, a0);
    }
    if Trimmed(r) && exists a :: MiddleAt(s, r, a) {
      var a :| MiddleAt(s, r, a);
      assert Trimmed(Strip(s));
      MiddleUnique(s, r, a, Strip(s), a0);
    }
  }

  /** A string that is already stripped is left as it is. */
  lemma StripFixed(s: string)
    requires s == [] || (!IsSpace(s[0]) && !IsSpace(s[|s| - 1]))
    ensures Strip(s) == s
  {
  }

  /** Stripping twice is stripping once. */
  lemma StripIdempotent(s: string)
    ensures Strip(Strip(s)) == Strip(s)
  {
    StripFixed(Strip(s));
  }

  /** A string holding a non-whitespace character is not blank. */
  lemma NotBlankAt(s: string, i: int)
    requires 0 <= i < |s| && !IsSpace(s[i])
    ensures Strip(s) != []
  {
  }

  /** Python's `sub in s` for strings: `sub` occurs in `s` at some position. */
  predicate Contains(s: string, sub: string)
  {
    exists i :: 0 <= i <= |s| && sub <= s[i..]
  }

  /** An occurrence of `sub` at position `i` is a witness for `Contains`. */
  lemma ContainsAt(s: string, sub: string, i: int)
    requires 0 <= i <= |s| - |sub| && s[i..i + |sub|] == sub
    ensures Contains(s, sub)
  {
    assert sub <= s[i..];
  }

  /** Every character of a non-empty word that occurs in `s` occurs in `s`. */
  lemma ContainsChar(s: string, sub: string, k: int)
    requires Contains(s, sub) && 0 <= k < |sub|
    ensures exists i :: 0 <= i < |s| && s[i] == sub[k]
  {
    var i :| 0 <= i <= |s| && sub <= s[i..];
    assert s[i..][k] == s[i + k];
  }

  /** A word whose first character does not occur in `s` does not occur in `s`. */
  lemma NotContainsInitial(s: string, sub: string)
    requires sub != [] && sub[0] !in s
    ensures !Contains(s, sub)
  {
    forall i | 0 <= i <= |s|
      ensures !(sub <= s[i..])
    {
      if i < |s| {
        assert s[i..][0] == s[i];
      }
    }
  }

  /** Python's `str.lower()` restricted to the ASCII letters. */
  function LowerChar(c: char): (d: char)
  {
    if 'A' <= c <= 'Z' then (c as int + 32) as char else c
  }

  /** Python's `str.lower()`, applied character by character. */
  function Lower(s: string): (r: string)
    ensures |r| == |s|
    ensures forall i :: 0 <= i < |s| ==> r[i] == LowerChar(s[i])
  {
    seq(|s|, i requires 0 <= i < |s| => LowerChar(s[i]))
  }

  /** An occurrence of `w` in `s` is an occurrence of the lowered `w` in the lowered `s`. */
  lemma LowerContains(s: string, w: string)
    requires Contains(s, w)
    ensures Contains(Lower(s), Lower(w))
  {
    var i :| 0 <= i <= |s| && w <= s[i..];
    assert Lower(w) <= Lower(s)[i..];
  }

  /** Python's `s.split(sep)` for a one-character separator: the pieces between
      the separators, always at least one. */
  function Split(s: string, sep: char): (r: seq<string>)
    ensures |r| >= 1
    ensures forall k :: 0 <= k < |r| ==> sep !in r[k]
  {
    if s == [] then [[]]
    else
      var rest := Split(s[1..], sep);
      if s[0] == sep then [[]] + rest
      else [[s[0]] + rest[0]] + rest[1..]
  }

  /** Python's `sep.join(pieces)` for a one-character separator. */
  function Join(pieces: seq<string>, sep: char): (r: string)
    ensures pieces == [] ==> r == []
    ensures |pieces| == 1 ==> r == pieces[0]
  {
    if pieces == [] then []
    else if |pieces| == 1 then pieces[0]
    else pieces[0] + [sep] + Join(pieces[1..], sep)
  }

  /** Joining a piece in front of at least one more piece puts a separator between them. */
  lemma JoinCons(piece: string, rest: seq<string>, sep: char)
    requires rest != []
    ensures Join([piece] + rest, sep) == piece + [sep] + Join(rest, sep)
  {
    assert ([piece] + rest)[1..] == rest;
  }

  /** Joining the pieces of a split gives back the original string. */
  lemma {:induction false} JoinSplit(s: string, sep: char)
    ensures Join(Split(s, sep), sep) == s
  {
    if s != [] {
      var rest := Split(s[1..], sep);
      JoinSplit(s[1..], sep);
      assert s == [s[0]] + s[1..];
      if s[0] == sep {
        JoinCons([], rest, sep);
      } else if |rest| == 1 {
        assert Split(s, sep) == [[s[0]] + rest[0]];
      } else {
        assert rest == [rest[0]] + rest[1..];
        JoinCons(rest[0], rest[1..], sep);
        JoinCons([s[0]] + rest[0], rest[1..], sep);
      }
    }
  }

  /** A character other than the separator joins the first piece. */
  lemma SplitCons(c: char, u: string, sep: char)
    requires c != sep
    ensures Split([c] + u, sep) == [[c] + Split(u, sep)[0]] + Split(u, sep)[1..]
  {
    assert ([c] + u)[1..] == u;
  }

  /** Splitting a piece free of the separator, followed by more text, adds the
      piece to the front of the first piece of that text. */
  lemma {:induction false} SplitPrefix(a: string, t: string, sep: char)
    requires sep !in a
    ensures Split(a + t, sep) == [a + Split(t, sep)[0]] + Split(t, sep)[1..]
  {
    if a != [] {
      SplitPrefix(a[1..], t, sep);
      var pieces, rest := Split(t, sep), Split(a[1..] + t, sep);
      assert a[0] in a;
      assert a + t == [a[0]] + (a[1..] + t);
      SplitCons(a[0], a[1..] + t, sep);
      assert [a[0]] + rest[0] == a + pieces[0];
    } else {
      var pieces := Split(t, sep);
      assert a + t == t && a + pieces[0] == pieces[0];
      assert pieces == [pieces[0]] + pieces[1..];
    }
  }

  /** Splitting joined pieces that are free of the separator gives the pieces back. */
  lemma {:induction false} SplitJoin(pieces: seq<string>, sep: char)
    requires |pieces| >= 1
    requires forall k :: 0 <= k < |pieces| ==> sep !in pieces[k]
    ensures Split(Join(pieces, sep), sep) == pieces
  {
    if |pieces| == 1 {
      SplitPrefix(pieces[0], [], sep);
      assert pieces[0] + [] == pieces[0];
    } else {
      var tail := Join(pieces[1..], sep);
      SplitJoin(pieces[1..], sep);
      assert Join(pieces, sep) == pieces[0] + ([sep] + tail);
      SplitPrefix(pieces[0], [sep] + tail, sep);
      assert ([sep] + tail)[0] == sep && ([sep] + tail)[1..] == tail;
      var after := Split([sep] + tail, sep);
      assert after == [[]] + pieces[1..];
      assert after[0] == [] && after[1..] == pieces[1..];
      assert pieces[0] + [] == pieces[0];
      assert pieces == [pieces[0]] + pieces[1..];
    }
  }

  /** A join of pieces that are all blank, with a blank separator, is blank, and
      conversely. */
  lemma {:induction false} JoinBlank(pieces: seq<string>, sep: char)
    requires IsSpace(sep)
    ensures AllSpace(Join(pieces, sep)) <==> forall k :: 0 <= k < |pieces| ==> AllSpace(pieces[k])
  {
    if |pieces| > 1 {
      var tail := Join(pieces[1..], sep);
      var j := Join(pieces, sep);
      JoinBlank(pieces[1..], sep);
      assert j == pieces[0] + [sep] + tail;
      if AllSpace(j) {
        forall i | 0 <= i < |pieces[0]| ensures IsSpace(pieces[0][i]) { assert j[i] == pieces[0][i]; }
        forall i | 0 <= i < |tail| ensures IsSpace(tail[i]) { assert j[|pieces[0]| + 1 + i] == tail[i]; }
        forall k | 0 <= k < |pieces| ensures AllSpace(pieces[k]) {
          if k > 0 { assert pieces[k] == pieces[1..][k - 1]; }
        }
      }
      if forall k :: 0 <= k < |pieces| ==> AllSpace(pieces[k]) {
        assert AllSpace(pieces[0]);
        assert forall k :: 0 <= k < |pieces[1..]| ==> AllSpace(pieces[1..][k]);
        forall i | 0 <= i < |j| ensures IsSpace(j[i]) {
          if i < |pieces[0]| { assert j[i] == pieces[0][i]; }
          else if i == |pieces[0]| { assert j[i] == sep; }
          else { assert j[i] == tail[i - |pieces[0]| - 1]; }
        }
      }
    }
  }

  /** A join of non-empty pieces is non-empty. */
  lemma JoinNonEmpty(pieces: seq<string>, sep: char)
    requires pieces != [] && pieces[0] != []
    ensures Join(pieces, sep) != []
  {
  }

  /** Python's `s.replace(pat, "")`: every non-overlapping occurrence of `pat`,
      scanning from the left, is removed. */
  function RemoveAll(s: string, pat: string): (r: string)
    requires pat != []
    ensures |r| <= |s|
    decreases |s|
  {
    if |s| < |pat| then s
    else if s[..|pat|] == pat then RemoveAll(s[|pat|..], pat)
    else [s[0]] + RemoveAll(s[1..], pat)
  }

  /** `s` without any occurrence of the character `c`, other characters in order. */
  function DropChar(s: string, c: char): (r: string)
    ensures c !in r
    ensures forall d :: d in r ==> d in s
  {
    if s == [] then [] else (if s[0] == c then [] else [s[0]]) + DropChar(s[1..], c)
  }

  /** Dropping a character distributes over concatenation. */
  lemma {:induction false} DropCharAppend(a: string, b: string, c: char)
    ensures DropChar(a + b, c) == DropChar(a, c) + DropChar(b, c)
  {
    if a != [] {
      DropCharAppend(a[1..], b, c);
      var head := if a[0] == c then [] else [a[0]];
      assert (a + b)[0] == a[0];
      assert (a + b)[1..] == a[1..] + b;
      assert DropChar(a + b, c) == head + DropChar(a[1..] + b, c);
      assert DropChar(a, c) == head + DropChar(a[1..], c);
    } else {
      assert a + b == b;
    }
  }

  /** Removing a one-character pattern is dropping that character. */
  lemma {:induction false} RemoveAllChar(s: string, c: char)
    ensures RemoveAll(s, [c]) == DropChar(s, c)
    decreases |s|
  {
    if s != [] {
      RemoveAllChar(s[1..], c);
      assert s[..|[c]|] == [s[0]] && s[|[c]|..] == s[1..];
      if s[0] == c {
        assert RemoveAll(s, [c]) == RemoveAll(s[1..], [c]);
      } else {
        assert RemoveAll(s, [c]) == [s[0]] + RemoveAll(s[1..], [c]);
      }
    }
  }

  /** Removing the doubled character first changes nothing once the single
      character is dropped afterwards. */
  lemma {:induction false} RemoveDoubledThenDrop(s: string, c: char)
    ensures DropChar(RemoveAll(s, [c, c]), c) == DropChar(s, c)
    decreases |s|
  {
    if |s| >= 2 {
      if s[..2] == [c, c] {
        RemoveDoubledThenDrop(s[2..], c);
        DoubledStep(s, c);
      } else {
        RemoveDoubledThenDrop(s[1..], c);
        KeptStep(s, c);
        DropCharAppend([s[0]], RemoveAll(s[1..], [c, c]), c);
      }
    }
  }

  /** A leading doubled character is removed by both sides. */
  lemma DoubledStep(s: string, c: char)
    requires |s| >= 2 && s[..2] == [c, c]
    ensures RemoveAll(s, [c, c]) == RemoveAll(s[2..], [c, c])
    ensures DropChar(s, c) == DropChar(s[2..], c)
  {
    assert s == [c, c] + s[2..];
    DropCharAppend([c, c], s[2..], c);
  }

  /** Without a leading doubled character, the first character is kept by the removal. */
  lemma KeptStep(s: string, c: char)
    requires |s| >= 2 && s[..2] != [c, c]
    ensures RemoveAll(s, [c, c]) == [s[0]] + RemoveAll(s[1..], [c, c])
    ensures DropChar(s, c) == DropChar([s[0]], c) + DropChar(s[1..], c)
  {
    assert s == [s[0]] + s[1..];
    DropCharAppend([s[0]], s[1..], c);
  }
}
