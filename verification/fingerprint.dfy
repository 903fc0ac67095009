/** The text behind the duplicate-detection key of `get_text_hash`
    (bot.py, lines 42-45): `" ".join(text.lower().split())`. The md5 digest
    taken of it is not modelled; two texts are duplicates exactly when their
    normalised texts are equal. */
module Fingerprint {
  import opened Text

  /** The normalised text that `get_text_hash` digests. */
  function Normalize(text: string): string
  {
    JoinSpace(Words(Lower(text)))
  }

  /** The shape of a normalised text: the only whitespace is a single `' '`
      between two non-whitespace characters, so there is none at either end
      and no run of two. */
  predicate IsNormal(r: string)
  {
    forall i :: 0 <= i < |r| && IsSpace(r[i]) ==>
      && r[i] == ' '
      && 0 < i < |r| - 1
      && !IsSpace(r[i - 1])
      && !IsSpace(r[i + 1])
  }

  predicate AllWords(ws: seq<string>)
  {
    forall i :: 0 <= i < |ws| ==> IsWord(ws[i])
  }

  // ---------------------------------------------------------------- Words, step by step

  /** One step of `Words`, stated for a character put in front. */
  lemma WordsCons(c: char, t: string)
    ensures Words([c] + t) ==
      if IsSpace(c) then Words(t)
      else if t != [] && !IsSpace(t[0]) then [[c] + Words(t)[0]] + Words(t)[1..]
      else [[c]] + Words(t)
  {
    assert ([c] + t)[1..] == t;
  }

  /** List algebra: extending the first word commutes with appending more words. */
  lemma HeadAppend(c: char, xs: seq<string>, ys: seq<string>)
    requires xs != []
    ensures [[c] + (xs + ys)[0]] + (xs + ys)[1..] == ([[c] + xs[0]] + xs[1..]) + ys
  {
    assert (xs + ys)[0] == xs[0];
    assert (xs + ys)[1..] == xs[1..] + ys;
  }

  /** Leading whitespace contributes no word. */
  lemma {:induction false} WordsSkipSpaces(x: string, b: string)
    requires AllSpace(x)
    ensures Words(x + b) == Words(b)
    decreases |x|
  {
    if x != [] {
      assert x + b == [x[0]] + (x[1..] + b);
      WordsCons(x[0], x[1..] + b);
      WordsSkipSpaces(x[1..], b);
    } else {
      assert x + b == b;
    }
  }

  /** A word followed by whitespace (or by nothing) is split off whole. */
  lemma {:induction false} WordsPlain(w: string, x: string)
    requires IsWord(w)
    requires x == [] || IsSpace(x[0])
    ensures Words(w + x) == [w] + Words(x)
    decreases |w|
  {
    var t := w[1..] + x;
    assert w + x == [w[0]] + t;
    WordsCons(w[0], t);
    if |w| == 1 {
      assert t == x;
      assert [w[0]] == w;
    } else {
      WordsPlain(w[1..], x);
      assert t[0] == w[1];
      assert [w[0]] + w[1..] == w;
      assert ([w[1..]] + Words(x))[1..] == Words(x);
    }
  }

  /** `str.split()` undoes `" ".join(...)` on proper words. */
  lemma {:induction false} WordsJoin(ws: seq<string>)
    requires AllWords(ws)
    ensures Words(JoinSpace(ws)) == ws
    decreases |ws|
  {
    if |ws| == 1 {
      WordsPlain(ws[0], []);
      assert ws[0] + [] == ws[0];
    } else if |ws| > 1 {
      var rest := JoinSpace(ws[1..]);
      assert JoinSpace(ws) == ws[0] + ([' '] + rest);
      WordsPlain(ws[0], [' '] + rest);
      WordsCons(' ', rest);
      WordsJoin(ws[1..]);
      assert [ws[0]] + ws[1..] == ws;
    }
  }

  /** Whitespace between two texts separates their words, however long the run. */
  lemma {:induction false} WordsAroundSpaces(a: string, x: string, b: string)
    requires x != [] && AllSpace(x)
    ensures Words(a + x + b) == Words(a) + Words(b)
    decreases |a|
  {
    if a == [] {
      assert a + x + b == x + b;
      WordsSkipSpaces(x, b);
    } else {
      WordsAroundSpaces(a[1..], x, b);
      WordsAroundStep(a[0], a[1..], x, b);
      assert [a[0]] + a[1..] == a;
    }
  }

  /** The inductive step of `WordsAroundSpaces`, for a first character `c`. */
  lemma WordsAroundStep(c: char, a: string, x: string, b: string)
    requires x != [] && AllSpace(x)
    requires Words(a + x + b) == Words(a) + Words(b)
    ensures Words([c] + a + x + b) == Words([c] + a) + Words(b)
  {
    var t := a + x + b;
    assert [c] + a + x + b == [c] + t;
    assert t[0] == if a != [] then a[0] else x[0];
    WordsCons(c, t);
    WordsCons(c, a);
    StepAlgebra(IsSpace(c), a != [] && !IsSpace(a[0]), c, Words(a), Words(b));
  }

  /** List algebra: one step of `Words` commutes with appending more words. */
  lemma StepAlgebra(sp: bool, joins: bool, c: char, wa: seq<string>, wb: seq<string>)
    requires joins ==> wa != []
    ensures (if sp then wa + wb
             else if joins then [[c] + (wa + wb)[0]] + (wa + wb)[1..]
             else [[c]] + (wa + wb))
         == (if sp then wa
             else if joins then [[c] + wa[0]] + wa[1..]
             else [[c]] + wa) + wb
  {
    if !sp && joins {
      HeadAppend(c, wa, wb);
    }
  }

  // ---------------------------------------------------------------- shape of a join

  /** The first character of a join of words is the first character of the first word. */
  lemma JoinFirst(ws: seq<string>)
    requires AllWords(ws) && ws != []
    ensures JoinSpace(ws) != [] && JoinSpace(ws)[0] == ws[0][0]
  {
    if |ws| > 1 {
      assert JoinSpace(ws) == ws[0] + ([' '] + JoinSpace(ws[1..]));
    }
  }

  /** A word, one space, then a normal text starting with a non-space is normal. */
  lemma NormalCons(w: string, t: string)
    requires IsWord(w) && IsNormal(t) && t != [] && !IsSpace(t[0])
    ensures IsNormal(w + [' '] + t)
  {
    var r := w + [' '] + t;
    forall i | 0 <= i < |r|
      ensures IsSpace(r[i]) ==>
        r[i] == ' ' && 0 < i < |r| - 1 && !IsSpace(r[i - 1]) && !IsSpace(r[i + 1])
    {
      if i < |w| {
        assert r[i] == w[i];
      } else if i == |w| {
        assert r[i - 1] == w[|w| - 1];
        assert r[i + 1] == t[0];
      } else {
        var j := i - |w| - 1;
        assert r[i] == t[j];
        if IsSpace(t[j]) {
          assert 0 < j < |t| - 1;
          assert r[i - 1] == t[j - 1];
          assert r[i + 1] == t[j + 1];
        }
      }
    }
  }

  /** Joining proper words with single spaces gives a normal text. */
  lemma {:induction false} JoinNormal(ws: seq<string>)
    requires AllWords(ws)
    ensures IsNormal(JoinSpace(ws))
    decreases |ws|
  {
    if |ws| == 1 {
      assert JoinSpace(ws) == ws[0];
    } else if |ws| > 1 {
      JoinNormal(ws[1..]);
      JoinFirst(ws[1..]);
      NormalCons(ws[0], JoinSpace(ws[1..]));
    }
  }

  /** Joining lower-case words with spaces gives a lower-case text. */
  lemma {:induction false} JoinLower(ws: seq<string>)
    requires forall i :: 0 <= i < |ws| ==> IsLowerStr(ws[i])
    ensures IsLowerStr(JoinSpace(ws))
    decreases |ws|
  {
    if |ws| > 1 {
      JoinLower(ws[1..]);
      var r := ws[0] + [' '] + JoinSpace(ws[1..]);
      forall i | 0 <= i < |r| ensures !IsUpper(r[i]) {
        if i > |ws[0]| {
          assert r[i] == JoinSpace(ws[1..])[i - |ws[0]| - 1];
        }
      }
    }
  }

  /** The words of a lowered text are lower-case. */
  lemma WordsOfLower(t: string)
    ensures forall i :: 0 <= i < |Words(Lower(t))| ==> IsLowerStr(Words(Lower(t))[i])
  {
    var s := Lower(t);
    var ws := Words(s);
    LowerIsLower(t);
    forall i, j | 0 <= i < |ws| && 0 <= j < |ws[i]| ensures !IsUpper(ws[i][j]) {
      var k :| 0 <= k < |s| && s[k] == ws[i][j];
    }
  }

  // ---------------------------------------------------------------- properties of Normalize

  /** A normalised text has no whitespace at either end, only single spaces
      inside, and no upper-case letter. */
  lemma NormalizeShape(text: string)
    ensures IsNormal(Normalize(text))
    ensures IsLowerStr(Normalize(text))
  {
    JoinNormal(Words(Lower(text)));
    WordsOfLower(text);
    JoinLower(Words(Lower(text)));
  }

  /** Normalising twice gives the same key as normalising once. */
  lemma NormalizeIdempotent(text: string)
    ensures Normalize(Normalize(text)) == Normalize(text)
  {
    var ws := Words(Lower(text));
    var n := Normalize(text);
    NormalizeShape(text);
    LowerOfLowerStr(n);
    WordsJoin(ws);
  }

  /** Two texts get the same key exactly when they have the same lowered
      words in the same order. */
  lemma SameKeyIff(a: string, b: string)
    ensures Normalize(a) == Normalize(b) <==> Words(Lower(a)) == Words(Lower(b))
  {
    WordsJoin(Words(Lower(a)));
    WordsJoin(Words(Lower(b)));
  }

  /** Replacing one run of whitespace by another leaves the key unchanged. */
  lemma IgnoresSpaceRuns(a: string, x: string, y: string, b: string)
    requires x != [] && AllSpace(x)
    requires y != [] && AllSpace(y)
    ensures Normalize(a + x + b) == Normalize(a + y + b)
  {
    LowerConcat(a + x, b);
    LowerConcat(a, x);
    LowerConcat(a + y, b);
    LowerConcat(a, y);
    WordsAroundSpaces(Lower(a), Lower(x), Lower(b));
    WordsAroundSpaces(Lower(a), Lower(y), Lower(b));
  }

  /** Whitespace before the first word or after the last one is ignored,
      as `str.split()` drops it. */
  lemma MarginsIgnored(x: string, a: string)
    requires AllSpace(x)
    ensures Normalize(x + a) == Normalize(a)
    ensures Normalize(a + x) == Normalize(a)
  {
    LowerConcat(x, a);
    LowerConcat(a, x);
    WordsSkipSpaces(Lower(x), Lower(a));
    if x != [] {
      WordsAroundSpaces(Lower(a), Lower(x), []);
      assert Lower(a) + Lower(x) + [] == Lower(a) + Lower(x);
      assert Words(Lower(a)) + Words([]) == Words(Lower(a));
    } else {
      assert a + x == a;
    }
  }

  /** Changing letter case leaves the key unchanged. */
  lemma IgnoresCase(a: string, b: string)
    requires Lower(a) == Lower(b)
    ensures Normalize(a) == Normalize(b)
  {
  }

  /** Two words separated by any run of whitespace normalise to the two
      lowered words separated by one space. */
  lemma NormalizeTwoWords(h: string, x: string, w: string)
    requires IsWord(h) && IsWord(w)
    requires x != [] && AllSpace(x)
    ensures Normalize(h + x + w) == Lower(h) + " " + Lower(w)
  {
    TwoWords(h, x, w);
    JoinTwo(Lower(h), Lower(w));
  }

  /** The words of two words around whitespace, after lowering. */
  lemma TwoWords(h: string, x: string, w: string)
    requires IsWord(h) && IsWord(w)
    requires x != [] && AllSpace(x)
    ensures Words(Lower(h + x + w)) == [Lower(h), Lower(w)]
  {
    LowerConcat(h + x, w);
    LowerConcat(h, x);
    var lh, lw := Lower(h), Lower(w);
    LowerWord(h);
    LowerWord(w);
    LowerSpaces(x);
    WordsAroundSpaces(lh, Lower(x), lw);
    WordsPlain(lh, []);
    WordsPlain(lw, []);
    assert lh + [] == lh && lw + [] == lw;
  }

  lemma JoinTwo(a: string, b: string)
    ensures JoinSpace([a, b]) == a + " " + b
  {
    assert [a, b][1..] == [b];
    assert JoinOn([b], ' ') == b;
    assert " " == [' '];
  }

  /** `"Hello   World"` and `"hello world"` get the same key. */
  lemma HelloWorld()
    ensures Normalize("Hello   World") == Normalize("hello world") == "hello world"
  {
    HelloWorldParts();
    NormalizeTwoWords("Hello", "   ", "World");
    NormalizeTwoWords("hello", " ", "world");
    HelloWorldLower();
  }

  lemma HelloWorldParts()
    ensures "Hello   World" == "Hello" + "   " + "World"
    ensures "hello world" == "hello" + " " + "world"
    ensures IsWord("Hello") && IsWord("World") && IsWord("hello") && IsWord("world")
    ensures AllSpace("   ") && AllSpace(" ")
  {
  }

  lemma HelloWorldLower()
    ensures Lower("Hello") == Lower("hello") == "hello"
    ensures Lower("World") == Lower("world") == "world"
    ensures "hello" + " " + "world" == "hello world"
  {
  }
}
