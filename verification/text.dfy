/** The Python string operations the bot relies on (`str.lower`, `str.strip`,
    `str.split`, `in`), written out over `seq<char>`. */
module Text {

  /** Python's `str.isspace()` set, which is also the set `str.split()` and
      `str.strip()` (both without arguments) treat as whitespace. */
  predicate IsSpace(c: char)
  {
    || c == ' '
    || '\U{9}' <= c <= '\U{D}'
    || '\U{1C}' <= c <= '\U{1F}'
    || c == '\U{85}' || c == '\U{A0}' || c == '\U{1680}'
    || '\U{2000}' <= c <= '\U{200A}'
    || c == '\U{2028}' || c == '\U{2029}' || c == '\U{202F}'
    || c == '\U{205F}' || c == '\U{3000}'
  }

  /** Upper-case letters that `str.lower()` changes, restricted to ASCII and
      the Latin-1 letters (U+00C0..U+00DE, without the multiplication sign). */
  predicate IsUpper(c: char)
  {
    ('A' <= c <= 'Z') || ('\U{C0}' <= c <= '\U{DE}' && c != '\U{D7}')
  }

  function LowerChar(c: char): (r: char)
    ensures !IsUpper(r)
    ensures IsUpper(c) ==> r != c
    ensures !IsUpper(c) ==> r == c
    ensures IsSpace(r) <==> IsSpace(c)
  {
    if IsUpper(c) then (c as int + 32) as char else c
  }

  /** Python's `str.lower()` on the letters above. */
  function Lower(s: string): string
  {
    seq(|s|, i requires 0 <= i < |s| => LowerChar(s[i]))
  }

  /** No character of `s` is changed by `str.lower()`. */
  predicate IsLowerStr(s: string)
  {
    forall i :: 0 <= i < |s| ==> !IsUpper(s[i])
  }

  lemma LowerIsLower(s: string)
    ensures IsLowerStr(Lower(s))
    ensures Lower(Lower(s)) == Lower(s)
  {
  }

  lemma LowerOfLowerStr(s: string)
    requires IsLowerStr(s)
    ensures Lower(s) == s
  {
  }

  lemma LowerConcat(a: string, b: string)
    ensures Lower(a + b) == Lower(a) + Lower(b)
  {
  }

  predicate AllSpace(s: string)
  {
    forall i :: 0 <= i < |s| ==> IsSpace(s[i])
  }

  // ---------------------------------------------------------------- containment

  /** `needle` occurs in `hay` starting at position `i`. */
  predicate OccursAt(hay: string, needle: string, i: nat)
  {
    i + |needle| <= |hay| && hay[i..i + |needle|] == needle
  }

  /** Python's `needle in hay`, scanning the candidate start positions in turn. */
  predicate Contains(hay: string, needle: string)
    decreases |hay|
  {
    || (|needle| <= |hay| && hay[..|needle|] == needle)
    || (hay != [] && Contains(hay[1..], needle))
  }

  /** Occurrences in the tail are the occurrences one position further on. */
  lemma OccursShift(hay: string, needle: string, i: nat)
    requires hay != []
    ensures OccursAt(hay[1..], needle, i) <==> OccursAt(hay, needle, i + 1)
  {
    if i + 1 + |needle| <= |hay| {
      assert hay[1..][i..i + |needle|] == hay[i + 1..i + 1 + |needle|];
    }
  }

  /** The scan above finds exactly the positions at which the needle occurs. */
  lemma {:induction false} ContainsIff(hay: string, needle: string)
    ensures Contains(hay, needle) <==> exists i: nat :: OccursAt(hay, needle, i)
    decreases |hay|
  {
    if |needle| <= |hay| && hay[..|needle|] == needle {
      assert OccursAt(hay, needle, 0);
    } else if hay == [] {
      forall i: nat ensures !OccursAt(hay, needle, i) {
      }
    } else {
      ContainsIff(hay[1..], needle);
      if Contains(hay[1..], needle) {
        var i: nat :| OccursAt(hay[1..], needle, i);
        OccursShift(hay, needle, i);
      } else {
        forall i: nat ensures !OccursAt(hay, needle, i) {
          if i == 0 {
            assert |needle| <= |hay| ==> hay[0..|needle|] == hay[..|needle|];
          } else {
            OccursShift(hay, needle, i - 1);
          }
        }
      }
    }
  }

  /** A needle with an upper-case letter never occurs in a lowered string. */
  lemma UpperNeverInLower(hay: string, needle: string)
    requires exists j :: 0 <= j < |needle| && IsUpper(needle[j])
    ensures !Contains(Lower(hay), needle)
  {
    var j :| 0 <= j < |needle| && IsUpper(needle[j]);
    ContainsIff(Lower(hay), needle);
    forall i: nat ensures !OccursAt(Lower(hay), needle, i) {
      if i + |needle| <= |hay| {
        assert Lower(hay)[i..i + |needle|][j] == Lower(hay)[i + j];
      }
    }
  }

  // ---------------------------------------------------------------- strip

  /** The first position at or after `i` that holds no whitespace (or `|s|`). */
  function SkipSpaces(s: string, i: nat): (j: nat)
    requires i <= |s|
    ensures i <= j <= |s|
    ensures forall k :: i <= k < j ==> IsSpace(s[k])
    ensures j < |s| ==> !IsSpace(s[j])
    decreases |s| - i
  {
    if i < |s| && IsSpace(s[i]) then SkipSpaces(s, i + 1) else i
  }

  /** The position just past the last non-whitespace character of `s[lo..j]`
      (or `lo` when there is none). */
  function SkipSpacesBack(s: string, lo: nat, j: nat): (e: nat)
    requires lo <= j <= |s|
    ensures lo <= e <= j
    ensures forall k :: e <= k < j ==> IsSpace(s[k])
    ensures e > lo ==> !IsSpace(s[e - 1])
    decreases j
  {
    if j > lo && IsSpace(s[j - 1]) then SkipSpacesBack(s, lo, j - 1) else j
  }

  /** `r` is `s` with exactly the whitespace margins `s[..i]` and `s[i + |r|..]`
      cut off, and nothing more. */
  predicate StripsTo(s: string, r: string, i: nat)
  {
    && i + |r| <= |s|
    && s[i..i + |r|] == r
    && (forall k :: 0 <= k < i ==> IsSpace(s[k]))
    && (forall k :: i + |r| <= k < |s| ==> IsSpace(s[k]))
    && (r == [] || (!IsSpace(r[0]) && !IsSpace(r[|r| - 1])))
  }

  /** Python's `str.strip()`: `r` is `s` with exactly its whitespace margins
      removed; it is empty exactly when `s` is all whitespace. */
  function Strip(s: string): (r: string)
    ensures r == [] <==> AllSpace(s)
    ensures StripsTo(s, r, if r == [] then 0 else SkipSpaces(s, 0))
  {
    var a := SkipSpaces(s, 0);
    var b := SkipSpacesBack(s, a, |s|);
    s[a..b]
  }

  // ---------------------------------------------------------------- split / join

  /** Python's `s.split(sep)` with an explicit one-character separator: the
      pieces between separators, empty pieces included. */
  function SplitOn(s: string, sep: char): (r: seq<string>)
    ensures |r| >= 1
    decreases |s|
  {
    if s == [] then [[]]
    else
      var rest := SplitOn(s[1..], sep);
      if s[0] == sep then [[]] + rest
      else [[s[0]] + rest[0]] + rest[1..]
  }

  /** No piece of a split contains the separator. */
  lemma {:induction false} SplitPiecesFree(s: string, sep: char)
    ensures forall i :: 0 <= i < |SplitOn(s, sep)| ==> sep !in SplitOn(s, sep)[i]
    decreases |s|
  {
    if s != [] {
      SplitPiecesFree(s[1..], sep);
      var rest := SplitOn(s[1..], sep);
      if s[0] != sep {
        assert sep !in [s[0]] + rest[0];
        assert forall i :: 1 <= i < |rest| ==> rest[1..][i - 1] == rest[i];
      }
    }
  }

  /** Python's `sep.join(ps)`. */
  function JoinOn(ps: seq<string>, sep: char): string
  {
    if ps == [] then []
    else if |ps| == 1 then ps[0]
    else ps[0] + [sep] + JoinOn(ps[1..], sep)
  }

  /** Joining the pieces of a split gives back the input. */
  lemma {:induction false} JoinSplit(s: string, sep: char)
    ensures JoinOn(SplitOn(s, sep), sep) == s
    decreases |s|
  {
    if s != [] {
      var rest := SplitOn(s[1..], sep);
      JoinSplit(s[1..], sep);
      if s[0] == sep {
        assert s == [sep] + s[1..];
      } else {
        var r := SplitOn(s, sep);
        assert r[1..] == rest[1..];
        if |rest| == 1 {
          assert s == [s[0]] + rest[0];
        } else {
          assert JoinOn(rest, sep) == rest[0] + [sep] + JoinOn(rest[1..], sep);
          assert s == [s[0]] + rest[0] + [sep] + JoinOn(rest[1..], sep);
        }
      }
    }
  }

  /** Splitting a join of separator-free pieces gives back the pieces. */
  lemma {:induction false} SplitJoin(ps: seq<string>, sep: char)
    requires |ps| >= 1
    requires forall i :: 0 <= i < |ps| ==> sep !in ps[i]
    ensures SplitOn(JoinOn(ps, sep), sep) == ps
    decreases |ps|
  {
    if |ps| == 1 {
      SplitPlain(ps[0], [], sep);
      assert ps[0] + [] == ps[0];
    } else {
      SplitJoin(ps[1..], sep);
      var t := [sep] + JoinOn(ps[1..], sep);
      assert JoinOn(ps, sep) == ps[0] + t;
      SplitPlain(ps[0], t, sep);
      assert t[1..] == JoinOn(ps[1..], sep);
      var st := SplitOn(t, sep);
      assert st == [[]] + ps[1..];
      assert st[0] == [] && st[1..] == ps[1..];
      assert ps[0] + st[0] == ps[0];
      assert [ps[0]] + ps[1..] == ps;
    }
  }

  /** A separator-free prefix becomes the first piece of the split. */
  lemma {:induction false} SplitPlain(w: string, t: string, sep: char)
    requires sep !in w
    requires t == [] || t[0] == sep
    ensures SplitOn(w + t, sep) == [w + SplitOn(t, sep)[0]] + SplitOn(t, sep)[1..]
    decreases |w|
  {
    var ts := SplitOn(t, sep);
    if w == [] {
      assert w + t == t;
      assert ts == [ts[0]] + ts[1..];
    } else {
      assert w[0] in w;
      SplitPlain(w[1..], t, sep);
      assert (w + t)[1..] == w[1..] + t;
      var rest := SplitOn(w[1..] + t, sep);
      assert rest == [w[1..] + ts[0]] + ts[1..];
      assert rest[0] == w[1..] + ts[0];
      assert rest[1..] == ts[1..];
      assert [w[0]] + (w[1..] + ts[0]) == w + ts[0];
    }
  }

  /** One step of `SplitOn`, stated for a character put in front. */
  lemma SplitCons(c: char, t: string, sep: char)
    ensures SplitOn([c] + t, sep) ==
      if c == sep then [[]] + SplitOn(t, sep)
      else [[c] + SplitOn(t, sep)[0]] + SplitOn(t, sep)[1..]
  {
    assert ([c] + t)[1..] == t;
  }

  /** Splitting around a separator splits each side independently. */
  lemma {:induction false} SplitAround(x: string, y: string, sep: char)
    ensures SplitOn(x + [sep] + y, sep) == SplitOn(x, sep) + SplitOn(y, sep)
    decreases |x|
  {
    if x == [] {
      assert x + [sep] + y == [sep] + y;
      SplitCons(sep, y, sep);
    } else {
      SplitAround(x[1..], y, sep);
      SplitAroundStep(x[0], x[1..], y, sep);
      assert [x[0]] + x[1..] == x;
    }
  }

  /** The inductive step of `SplitAround`, for a first character `c`. */
  lemma SplitAroundStep(c: char, x: string, y: string, sep: char)
    requires SplitOn(x + [sep] + y, sep) == SplitOn(x, sep) + SplitOn(y, sep)
    ensures SplitOn([c] + x + [sep] + y, sep) == SplitOn([c] + x, sep) + SplitOn(y, sep)
  {
    var t := x + [sep] + y;
    assert [c] + x + [sep] + y == [c] + t;
    SplitCons(c, t, sep);
    SplitCons(c, x, sep);
    ConsAppend(c == sep, c, SplitOn(x, sep), SplitOn(y, sep));
  }

  /** The list algebra behind `SplitAroundStep`. */
  lemma ConsAppend(isSep: bool, c: char, xs: seq<string>, ys: seq<string>)
    requires |xs| >= 1
    ensures (if isSep then [[]] + (xs + ys) else [[c] + (xs + ys)[0]] + (xs + ys)[1..])
         == (if isSep then [[]] + xs else [[c] + xs[0]] + xs[1..]) + ys
  {
    if !isSep {
      assert (xs + ys)[0] == xs[0];
      assert (xs + ys)[1..] == xs[1..] + ys;
    }
  }

  // ---------------------------------------------------------------- words

  /** A word of `str.split()`: non-empty and free of whitespace. */
  predicate IsWord(w: string)
  {
    w != [] && forall i :: 0 <= i < |w| ==> !IsSpace(w[i])
  }

  /** Lowering a word gives a word: `lower()` changes no character's
      whitespace class. */
  lemma LowerWord(w: string)
    requires IsWord(w)
    ensures IsWord(Lower(w))
  {
    assert forall i :: 0 <= i < |w| ==> Lower(w)[i] == LowerChar(w[i]);
  }

  /** Lowering a whitespace run gives a whitespace run of the same length. */
  lemma LowerSpaces(x: string)
    requires AllSpace(x)
    ensures AllSpace(Lower(x)) && |Lower(x)| == |x|
  {
    assert forall i :: 0 <= i < |x| ==> Lower(x)[i] == LowerChar(x[i]);
  }

  /** Python's `s.split()` without arguments: the maximal runs of
      non-whitespace characters, in order. */
  function Words(s: string): (r: seq<string>)
    ensures forall i :: 0 <= i < |r| ==> IsWord(r[i])
    ensures s != [] && !IsSpace(s[0]) ==> r != [] && r[0] != [] && r[0][0] == s[0]
    ensures forall i, j :: 0 <= i < |r| && 0 <= j < |r[i]| ==> r[i][j] in s
    decreases |s|
  {
    if s == [] then []
    else
      var rest := Words(s[1..]);
      if IsSpace(s[0]) then rest
      else if |s| > 1 && !IsSpace(s[1]) then [[s[0]] + rest[0]] + rest[1..]
      else [[s[0]]] + rest
  }

  /** Python's `" ".join(ws)`. */
  function JoinSpace(ws: seq<string>): string
  {
    JoinOn(ws, ' ')
  }
}
