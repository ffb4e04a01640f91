// Comma-separated argument lists: the textual form used for predicate
// arguments and dependency variables.  A list is parsed by splitting on every
// comma (empty pieces are kept) and trimming each piece; a blank string is the
// empty list.  Printing joins the tokens with commas.
module ArgLists {

  /** The characters Rust's `char::is_whitespace` accepts: the Unicode
    * White_Space property. */
  const Whitespace: set<char> :=
    {'\U{9}', '\U{A}', '\U{B}', '\U{C}', '\U{D}', ' ', '\U{85}', '\U{A0}', '\U{1680}',
     '\U{2000}', '\U{2001}', '\U{2002}', '\U{2003}', '\U{2004}', '\U{2005}',
     '\U{2006}', '\U{2007}', '\U{2008}', '\U{2009}', '\U{200A}',
     '\U{2028}', '\U{2029}', '\U{202F}', '\U{205F}', '\U{3000}'}

  predicate IsWhitespace(ch: char)
  {
    ch in Whitespace
  }

  predicate AllWhitespace(s: string)
  {
    forall i :: 0 <= i < |s| ==> IsWhitespace(s[i])
  }

  /** Neither end of `t` is whitespace: what `trim` leaves behind. */
  predicate Trimmed(t: string)
  {
    t == [] || (!IsWhitespace(t[0]) && !IsWhitespace(t[|t| - 1]))
  }

  /** Every character of `s` from index `i` up to `j` is whitespace. */
  predicate BlankBetween(s: string, i: nat, j: nat)
    requires i <= j <= |s|
  {
    forall k :: i <= k < j ==> IsWhitespace(s[k])
  }

  /** The scan from the front: the first index at or after `i` that is not
    * whitespace, or `|s|` when there is none. */
  function SkipStart(s: string, i: nat): (k: nat)
    requires i <= |s|
    ensures i <= k <= |s| && BlankBetween(s, i, k)
    ensures k == |s| || !IsWhitespace(s[k])
    decreases |s| - i
  {
    if i < |s| && IsWhitespace(s[i]) then SkipStart(s, i + 1) else i
  }

  /** The scan from the back, down to `lo` at the lowest: the index just past
    * the last character before `j` that is not whitespace. */
  function SkipEnd(s: string, lo: nat, j: nat): (k: nat)
    requires lo <= j <= |s|
    ensures lo <= k <= j && BlankBetween(s, k, j)
    ensures k == lo || !IsWhitespace(s[k - 1])
    decreases j
  {
    if lo < j && IsWhitespace(s[j - 1]) then SkipEnd(s, lo, j - 1) else j
  }

  /** Rust's `str::trim`: the infix of `s` left once the whitespace at both
    * ends is dropped; neither end of it is whitespace. */
  function Trim(s: string): (r: string)
    ensures Trimmed(r)
    ensures var a := SkipStart(s, 0);
            a + |r| <= |s| && r == s[a..a + |r|] &&
            BlankBetween(s, 0, a) && BlankBetween(s, a + |r|, |s|)
  {
    var a := SkipStart(s, 0);
    s[a..SkipEnd(s, a, |s|)]
  }

  lemma AllWhitespaceSplit(s: string, k: nat)
    requires k <= |s|
    ensures AllWhitespace(s) <==> AllWhitespace(s[..k]) && AllWhitespace(s[k..])
  {
    if AllWhitespace(s[..k]) && AllWhitespace(s[k..]) {
      forall i | 0 <= i < |s| ensures IsWhitespace(s[i]) {
        if i < k { assert s[i] == s[..k][i]; } else { assert s[i] == s[k..][i - k]; }
      }
    }
  }

  /** `trim` yields the empty string exactly on blank input. */
  lemma TrimEmptyIffBlank(s: string)
    ensures Trim(s) == [] <==> AllWhitespace(s)
  {
    var a := SkipStart(s, 0);
    if AllWhitespace(s) {
      assert a == |s|;
    }
  }

  /** A string with no whitespace at either end is left alone by `trim`. */
  lemma TrimFixesTrimmed(t: string)
    requires Trimmed(t)
    ensures Trim(t) == t
  {
    if t != [] {
      assert SkipStart(t, 0) == 0;
      assert SkipEnd(t, 0, |t|) == |t|;
    }
  }

  /** `trim` is idempotent. */
  lemma TrimIdempotent(s: string)
    ensures Trim(Trim(s)) == Trim(s)
  {
    TrimFixesTrimmed(Trim(s));
  }

  /** Every character `trim` keeps was in its input. */
  lemma TrimKeeps(s: string, ch: char)
    requires ch in Trim(s)
    ensures ch in s
  {
    var r := Trim(s);
    var a := SkipStart(s, 0);
    var i :| 0 <= i < |r| && r[i] == ch;
    assert s[a + i] == ch;
  }

  /** Rust's `str::split(',')`: the pieces between commas, empty ones kept;
    * there is always one more piece than there are commas. */
  function Split(s: string): (r: seq<string>)
    ensures |r| >= 1
    ensures forall i :: 0 <= i < |r| ==> ',' !in r[i]
  {
    if |s| == 0 then [""]
    else if s[0] == ',' then [""] + Split(s[1..])
    else var rest := Split(s[1..]); [[s[0]] + rest[0]] + rest[1..]
  }

  /** `join(",")`. */
  function Join(parts: seq<string>): (r: string)
    ensures parts != [] && (forall i :: 0 <= i < |parts| ==> ',' !in parts[i]) ==> Commas(r) == |parts| - 1
    decreases |parts|
  {
    if |parts| == 0 then ""
    else if |parts| == 1 then CommaFree(parts[0]); parts[0]
    else
      var rest := Join(parts[1..]);
      assert forall i :: 0 <= i < |parts[1..]| ==> parts[1..][i] == parts[i + 1];
      assert Commas(",") == 1 + Commas([]);
      CommaFree(parts[0]);
      CommasConcat(parts[0], ",");
      CommasConcat(parts[0] + ",", rest);
      parts[0] + "," + rest
  }

  function Commas(s: string): nat
  {
    if |s| == 0 then 0 else (if s[0] == ',' then 1 else 0) + Commas(s[1..])
  }

  /** The commas of a concatenation are those of its two halves. */
  lemma {:induction false} CommasConcat(a: string, b: string)
    ensures Commas(a + b) == Commas(a) + Commas(b)
  {
    if a == [] {
      assert a + b == b;
    } else {
      assert (a + b)[1..] == a[1..] + b;
      CommasConcat(a[1..], b);
    }
  }

  /** A string without a comma counts none. */
  lemma {:induction false} CommaFree(s: string)
    ensures ',' !in s ==> Commas(s) == 0
  {
    if s != [] {
      CommaFree(s[1..]);
    }
  }

  lemma {:induction false} SplitCount(s: string)
    ensures |Split(s)| == Commas(s) + 1
  {
    if |s| > 0 {
      SplitCount(s[1..]);
    }
  }

  /** Joining the pieces of a split gives back the string. */
  lemma {:induction false} JoinSplit(s: string)
    ensures Join(Split(s)) == s
  {
    if |s| > 0 {
      var rest := Split(s[1..]);
      JoinSplit(s[1..]);
      if s[0] == ',' {
        assert Split(s)[1..] == rest;
        assert s == [','] + s[1..];
      } else if |rest| == 1 {
        assert s == [s[0]] + rest[0];
      } else {
        assert Join(rest) == rest[0] + "," + Join(rest[1..]);
        assert Split(s)[1..] == rest[1..];
        assert s == [s[0]] + s[1..];
      }
    }
  }

  lemma SplitHeadComma(t: string)
    ensures Split([','] + t) == [""] + Split(t)
  {
    assert ([','] + t)[1..] == t;
  }

  lemma {:induction false} SplitPrefix(p: string, t: string)
    requires ',' !in p
    ensures Split(p + t) == [p + Split(t)[0]] + Split(t)[1..]
    decreases |p|
  {
    if |p| > 0 {
      SplitPrefix(p[1..], t);
      var pieces := Split(t);
      var rest := Split(p[1..] + t);
      assert (p + t)[0] == p[0] && p[0] != ',';
      assert (p + t)[1..] == p[1..] + t;
      assert Split(p + t) == [[p[0]] + rest[0]] + rest[1..];
      assert rest[0] == p[1..] + pieces[0] && rest[1..] == pieces[1..];
      assert [p[0]] + (p[1..] + pieces[0]) == p + pieces[0];
    } else {
      var pieces := Split(t);
      assert p + t == t && p + pieces[0] == pieces[0];
      assert pieces == [pieces[0]] + pieces[1..];
    }
  }

  /** Splitting a join of comma-free pieces gives back the pieces. */
  lemma {:induction false} SplitJoin(parts: seq<string>)
    requires |parts| >= 1
    requires forall i :: 0 <= i < |parts| ==> ',' !in parts[i]
    ensures Split(Join(parts)) == parts
    decreases |parts|
  {
    if |parts| == 1 {
      SplitPrefix(parts[0], "");
      assert parts[0] + "" == parts[0];
    } else {
      SplitJoin(parts[1..]);
      SplitHeadComma(Join(parts[1..]));
      assert parts[0] + "," + Join(parts[1..]) == parts[0] + ([','] + Join(parts[1..]));
      var tail := [','] + Join(parts[1..]);
      SplitPrefix(parts[0], tail);
      assert Split(tail)[0] == "" && Split(tail)[1..] == parts[1..];
      assert parts[0] + "" == parts[0];
      assert parts == [parts[0]] + parts[1..];
    }
  }

  /** A parsed argument list: the tokens in order. */
  datatype ArgList = ArgList(tokens: seq<string>)

  /** `From<&str> for ArgList`. */
  function FromStr(s: string): (l: ArgList)
    ensures l.tokens == [] <==> Trim(s) == []
    ensures forall i :: 0 <= i < |l.tokens| ==> Trimmed(l.tokens[i])
  {
    if Trim(s) == [] then ArgList([])
    else ArgList(TrimEach(Split(s)))
  }

  function TrimEach(parts: seq<string>): seq<string>
  {
    seq(|parts|, i requires 0 <= i < |parts| => Trim(parts[i]))
  }

  lemma TrimEachFixesTrimmed(parts: seq<string>)
    requires forall i :: 0 <= i < |parts| ==> Trimmed(parts[i])
    ensures TrimEach(parts) == parts
  {
    forall i | 0 <= i < |parts| ensures TrimEach(parts)[i] == parts[i] {
      TrimFixesTrimmed(parts[i]);
    }
  }

  /** `From<&ArgList> for String`. */
  function ToStr(l: ArgList): (s: string)
  {
    Join(l.tokens)
  }

  /** A list whose text form parses back to it: tokens are trimmed and
    * comma-free, and the list is not the single empty token (which prints
    * as the blank string and so parses to the empty list). */
  predicate Printable(l: ArgList)
  {
    l.tokens != [""]
    && forall i :: 0 <= i < |l.tokens| ==> ',' !in l.tokens[i] && Trimmed(l.tokens[i])
  }

  /** The list is empty exactly when the text is blank. */
  lemma FromStrEmptyIffBlank(s: string)
    ensures FromStr(s).tokens == [] <==> AllWhitespace(s)
  {
    TrimEmptyIffBlank(s);
  }

  /** A non-blank text has one token per comma-separated piece, each the
    * trimmed piece; so the count is the number of commas plus one. */
  lemma FromStrPieces(s: string)
    requires !AllWhitespace(s)
    ensures |FromStr(s).tokens| == Commas(s) + 1
    ensures forall i :: 0 <= i < |FromStr(s).tokens| ==> FromStr(s).tokens[i] == Trim(Split(s)[i])
  {
    TrimEmptyIffBlank(s);
    SplitCount(s);
  }

  /** Every parsed list is printable: parsing, printing and parsing again is
    * the same as parsing once. */
  lemma FromStrPrintable(s: string)
    ensures Printable(FromStr(s))
  {
    var l := FromStr(s);
    if Trim(s) != [] {
      var pieces := Split(s);
      forall i | 0 <= i < |l.tokens| ensures ',' !in l.tokens[i] && Trimmed(l.tokens[i]) {
        assert l.tokens[i] == Trim(pieces[i]);
      }
      if |pieces| == 1 {
        JoinSplit(s);
        assert l.tokens[0] == Trim(s);
      }
    }
  }

  /** The text of a printable, non-empty list is not blank. */
  lemma JoinNotBlank(l: ArgList)
    requires Printable(l) && l.tokens != []
    ensures !AllWhitespace(ToStr(l))
  {
    var s := ToStr(l);
    if |l.tokens| == 1 {
      assert s == l.tokens[0] && s != [] && !IsWhitespace(s[0]);
    } else {
      assert s == l.tokens[0] + "," + Join(l.tokens[1..]);
      assert s[|l.tokens[0]|] == ',';
    }
  }

  /** Printing a printable list and parsing the text gives the list back. */
  lemma RoundTrip(l: ArgList)
    requires Printable(l)
    ensures FromStr(ToStr(l)) == l
  {
    var s := ToStr(l);
    TrimEmptyIffBlank(s);
    if l.tokens == [] {
      assert AllWhitespace(s);
    } else {
      JoinNotBlank(l);
      SplitJoin(l.tokens);
      TrimEachFixesTrimmed(l.tokens);
    }
  }

  /** Parsing is stable under a print-and-reparse cycle. */
  lemma ReparseStable(s: string)
    ensures FromStr(ToStr(FromStr(s))) == FromStr(s)
  {
    FromStrPrintable(s);
    RoundTrip(FromStr(s));
  }

  /** The module's own unit test `token_list_empty`: blank text gives no
    * tokens. */
  lemma TokenListEmpty()
    ensures |FromStr("").tokens| == 0
    ensures |FromStr(" ").tokens| == 0
    ensures |FromStr(" \n\t ").tokens| == 0
  {
    assert |FromStr("").tokens| == 0 by { FromStrEmptyIffBlank(""); }
    assert |FromStr(" ").tokens| == 0 by { FromStrEmptyIffBlank(" "); }
    var blank := " \n\t ";
    assert AllWhitespace(blank) by {
      assert ' ' in Whitespace && '\n' in Whitespace && '\t' in Whitespace;
      assert blank == [' ', '\n', '\t', ' '];
    }
    FromStrEmptyIffBlank(blank);
  }

  /** The module's own unit test `token_list_one`: one piece, one token. */
  lemma TokenListOne()
    ensures |FromStr("x").tokens| == 1
    ensures |FromStr(" x ").tokens| == 1
  {
    assert !AllWhitespace("x") by { assert "x"[0] == 'x'; }
    assert !AllWhitespace(" x ") by { assert " x "[1] == 'x'; }
    FromStrPieces("x");
    FromStrPieces(" x ");
  }

  /** The module's own unit test `token_list_two`: one comma, two tokens, even
    * when one of the pieces is empty. */
  lemma TokenListTwo()
    ensures |FromStr("x,y").tokens| == 2
    ensures |FromStr("x,").tokens| == 2
    ensures |FromStr(",y").tokens| == 2
  {
    assert !AllWhitespace("x,y") by { assert "x,y"[0] == 'x'; }
    assert !AllWhitespace("x,") by { assert "x,"[0] == 'x'; }
    assert !AllWhitespace(",y") by { assert ",y"[0] == ','; }
    assert Commas("y") == 0 by { assert "y"[1..] == ""; }
    assert Commas(",y") == 1 by { assert ",y"[1..] == "y"; }
    assert Commas("x,y") == 1 by { assert "x,y"[1..] == ",y"; }
    assert Commas("x,") == 1 by { assert "x,"[1..] == ","; assert ","[1..] == ""; }
    FromStrPieces("x,y");
    FromStrPieces("x,");
    FromStrPieces(",y");
  }
}
