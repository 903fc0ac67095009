/** The keyword lists of the configuration (bot.py, lines 15-17): a
    comma-separated string becomes the list of its stripped, lower-cased,
    non-blank pieces. */
module Keywords {
  import opened Util
  import opened Text

  /** What every parsed keyword looks like. */
  predicate IsKeyword(k: string)
  {
    && k != []
    && !IsSpace(k[0])
    && !IsSpace(k[|k| - 1])
    && IsLowerStr(k)
    && ',' !in k
  }

  /** One configured keyword produced from one piece of the comma split. */
  predicate ComesFrom(k: string, p: string)
  {
    Strip(p) != [] && k == Lower(Strip(p))
  }

  /** `k` comes from one of the pieces `ps`. */
  predicate FromSomePiece(k: string, ps: seq<string>)
  {
    exists i :: 0 <= i < |ps| && ComesFrom(k, ps[i])
  }

  /** What one piece contributes: its keyword, unless it is blank. */
  function Cleaned(p: string): seq<string>
  {
    if Strip(p) == [] then [] else [Lower(Strip(p))]
  }

  /** `[kw.strip().lower() for kw in ps if kw.strip()]`. */
  function CleanPieces(ps: seq<string>): seq<string>
  {
    FlatMap(Cleaned, ps)
  }

  /** Every cleaned piece is a well-formed keyword. */
  lemma {:induction false} CleanKeywords(ps: seq<string>)
    requires forall i :: 0 <= i < |ps| ==> ',' !in ps[i]
    ensures forall k :: k in CleanPieces(ps) ==> IsKeyword(k)
    decreases |ps|
  {
    if ps != [] {
      CleanKeywords(ps[1..]);
      if Strip(ps[0]) != [] {
        CleanOne(ps[0]);
      }
    }
  }

  /** A non-blank comma-free piece yields a well-formed keyword. */
  lemma CleanOne(p: string)
    requires ',' !in p && Strip(p) != []
    ensures IsKeyword(Lower(Strip(p)))
  {
    var s := Strip(p);
    var i := SkipSpaces(p, 0);
    assert p[i..i + |s|] == s;
    forall c | c in s ensures c != ',' {
      var j :| 0 <= j < |s| && s[j] == c;
      assert p[i + j] == c;
    }
    LowerIsLower(s);
  }

  /** `raw.split(",")`. */
  function Pieces(raw: string): seq<string>
  {
    SplitOn(raw, ',')
  }

  /** Parsing of one environment variable such as `KEYWORDS_INCLUDE`. */
  function ParseKeywords(raw: string): seq<string>
  {
    CleanPieces(Pieces(raw))
  }

  /** Every parsed keyword is well formed: non-empty, without surrounding
      blanks, lower case and comma-free. */
  lemma ParseWellFormed(raw: string)
    ensures forall k :: k in ParseKeywords(raw) ==> IsKeyword(k)
  {
    SplitPiecesFree(raw, ',');
    CleanKeywords(SplitOn(raw, ','));
  }

  /** A keyword is kept exactly when it is the stripped, lowered form of a
      non-blank piece. */
  lemma CleanMembers(ps: seq<string>, k: string)
    ensures k in CleanPieces(ps) <==> FromSomePiece(k, ps)
  {
    FlatMapMembers(Cleaned, ps, k);
    assert forall p :: k in Cleaned(p) <==> ComesFrom(k, p);
  }

  /** The keywords of a configuration string are exactly the stripped,
      lowered, non-blank pieces between its commas. */
  lemma {:induction false} ParseMembers(raw: string, k: string)
    ensures k in ParseKeywords(raw) <==> FromSomePiece(k, Pieces(raw))
  {
    var ps := Pieces(raw);
    assert ParseKeywords(raw) == CleanPieces(ps);
    CleanMembers(ps, k);
  }

  /** Keywords keep the order of the input: the keywords before a comma come
      first, then the keywords after it. */
  lemma {:induction false} ParseAround(x: string, y: string)
    ensures ParseKeywords(x + [','] + y) == ParseKeywords(x) + ParseKeywords(y)
  {
    SplitAround(x, y, ',');
    FlatMapAppend(Cleaned, SplitOn(x, ','), SplitOn(y, ','));
  }

  /** A comma-free input gives at most one keyword: its stripped, lowered
      text, or nothing when it is blank. */
  lemma ParseSingle(raw: string)
    requires ',' !in raw
    ensures ParseKeywords(raw) == if AllSpace(raw) then [] else [Lower(Strip(raw))]
  {
    assert forall i :: 0 <= i < |[raw]| ==> ',' !in [raw][i];
    SplitJoin([raw], ',');
    assert JoinOn([raw], ',') == raw;
    assert SplitOn(raw, ',') == [raw];
    assert CleanPieces([raw][1..]) == [];
  }

  /** An unset variable (Python's default `""`) yields no keywords. */
  lemma ParseEmpty()
    ensures ParseKeywords("") == []
  {
    ParseSingle("");
  }
}
