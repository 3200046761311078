/** `ca.hss.text.StringExtensions`: `capitalizeFully` and the string
    helpers it shares with the `sscanf` model (module Scanf). Characters are
    classified as ASCII. In `sscanf`, the integer parses are modelled (the
    digit run is parsed in its radix and checked against the type's
    maximum); only a decimal field keeps the text it read, with the parse
    modelled by whether it accepts that text. */
module StringExtensions {
  import opened Results

  // ---------------------------------------------------------------------
  // Characters

  function Lower(c: char): char {
    if 'A' <= c <= 'Z' then (c as int + 32) as char else c
  }

  function Upper(c: char): char {
    if 'a' <= c <= 'z' then (c as int - 32) as char else c
  }

  function LowerAll(s: string): (r: string)
    ensures |r| == |s| && forall i :: 0 <= i < |s| ==> r[i] == Lower(s[i])
  {
    if s == [] then [] else [Lower(s[0])] + LowerAll(s[1..])
  }

  /** `String.trim` drops every leading and trailing character up to U+0020. */
  predicate Blank(c: char) {
    c <= ' '
  }

  predicate IsDigit(c: char) {
    '0' <= c <= '9'
  }

  /** `Character.isWhitespace` on ASCII: space, tab to carriage return, and
      the four separators U+001C to U+001F. */
  predicate IsWhitespace(c: char) {
    var n := c as int;
    n == 32 || 9 <= n <= 13 || 28 <= n <= 31
  }

  predicate IsSplitter(c: char) {
    c == '.' || c == ','
  }

  // ---------------------------------------------------------------------
  // Splitting on single spaces

  /** The words of `ws` joined with one space between neighbours. */
  function Join(ws: seq<string>): string {
    if |ws| == 0 then ""
    else if |ws| == 1 then ws[0]
    else ws[0] + " " + Join(ws[1..])
  }

  /** Every piece between spaces, empty ones included. */
  function Pieces(s: string): (r: seq<string>)
    ensures |r| >= 1
    ensures forall k :: 0 <= k < |r| ==> ' ' !in r[k]
  {
    if s == [] then [""]
    else if s[0] == ' ' then [""] + Pieces(s[1..])
    else
      var rest := Pieces(s[1..]);
      [[s[0]] + rest[0]] + rest[1..]
  }

  function DropTrailingEmpty(ws: seq<string>): (r: seq<string>)
    ensures |r| <= |ws| && r == ws[..|r|]
    ensures r == [] || r[|r| - 1] != ""
    ensures forall k :: |r| <= k < |ws| ==> ws[k] == ""
  {
    if ws == [] || ws[|ws| - 1] != "" then ws else DropTrailingEmpty(ws[..|ws| - 1])
  }

  /** `s` is `t` followed by nothing but spaces. */
  ghost predicate PaddedBy(s: string, t: string) {
    |t| <= |s| && s[..|t|] == t && forall i :: |t| <= i < |s| ==> s[i] == ' '
  }

  /** `String.split(" ")`: without a space the string itself; otherwise the
      pieces, with trailing empty ones removed. The words hold no space, the
      last one is not empty, and joined again they give back the input up
      to the trailing spaces that were dropped. */
  function Split(s: string): (r: seq<string>)
    ensures forall k :: 0 <= k < |r| ==> ' ' !in r[k]
    ensures ' ' !in s ==> r == [s]
    ensures ' ' in s ==> r == [] || r[|r| - 1] != ""
    ensures PaddedBy(s, Join(r))
  {
    if ' ' !in s then
      assert s[..|s|] == s;
      [s]
    else
      JoinPieces(s);
      DropJoin(Pieces(s));
      DropTrailingEmpty(Pieces(s))
  }

  /** Dropping trailing empty words drops trailing spaces of the join. */
  lemma {:induction false} DropJoin(ws: seq<string>)
    ensures PaddedBy(Join(ws), Join(DropTrailingEmpty(ws)))
    decreases |ws|
  {
    var j := Join(ws);
    if ws == [] || ws[|ws| - 1] != "" {
      assert j[..|j|] == j;
    } else {
      var u := ws[..|ws| - 1];
      DropJoin(u);
      var t, v := Join(u), Join(DropTrailingEmpty(u));
      if |u| == 0 {
        assert ws == [""];
      } else {
        assert ws == u + [""];
        JoinSnoc(u, "");
        assert j == t + " ";
        assert j[..|v|] == t[..|v|];
      }
    }
  }

  /** The length of the leading run of blanks. */
  function LeadingBlanks(s: string): (k: nat)
    ensures k <= |s| && forall i :: 0 <= i < k ==> Blank(s[i])
    ensures k == |s| || !Blank(s[k])
  {
    if s == [] || !Blank(s[0]) then 0 else 1 + LeadingBlanks(s[1..])
  }

  function TrimStart(s: string): (r: string)
    ensures r == [] || !Blank(r[0])
    ensures exists k :: 0 <= k <= |s| && r == s[k..] && forall i :: 0 <= i < k ==> Blank(s[i])
  {
    var k := LeadingBlanks(s);
    s[k..]
  }

  function TrimEnd(s: string): (r: string)
    ensures r == [] || !Blank(r[|r| - 1])
    ensures |r| <= |s| && r == s[..|r|] && forall i :: |r| <= i < |s| ==> Blank(s[i])
  {
    if s == [] || !Blank(s[|s| - 1]) then s else TrimEnd(s[..|s| - 1])
  }

  /** `r` sits at `k` in `s` with only blanks around it. */
  ghost predicate Framed(s: string, r: string, k: int) {
    && 0 <= k && k + |r| <= |s| && r == s[k..k + |r|]
    && (forall i :: 0 <= i < k ==> Blank(s[i]))
    && (forall i :: k + |r| <= i < |s| ==> Blank(s[i]))
  }

  /** `String.trim`: the part of `s` between its leading and trailing runs of
      blanks; it neither starts nor ends blank. */
  function Trim(s: string): (r: string)
    ensures r == [] || (!Blank(r[0]) && !Blank(r[|r| - 1]))
    ensures exists k :: Framed(s, r, k)
  {
    TrimIsFramed(s);
    TrimEnd(TrimStart(s))
  }

  lemma TrimIsFramed(s: string)
    ensures exists k :: Framed(s, TrimEnd(TrimStart(s)), k)
  {
    var k := LeadingBlanks(s);
    var a := TrimStart(s);
    assert a == s[k..];
    var r := TrimEnd(a);
    assert r == s[k..k + |r|];
    forall i | k + |r| <= i < |s|
      ensures Blank(s[i])
    {
      assert s[i] == a[i - k];
    }
    assert Framed(s, r, k);
  }

  // ---------------------------------------------------------------------
  // capitalizeFully

  /** One word as `capitalizeFully` emits it: its first character upper-cased,
      the rest as given (already lower-cased), then a space. */
  function Emit(w: string): string
    requires w != []
  {
    [Upper(w[0])] + w[1..] + " "
  }

  function EmitAll(ws: seq<string>): string
    requires forall k :: 0 <= k < |ws| ==> ws[k] != []
  {
    if ws == [] then "" else Emit(ws[0]) + EmitAll(ws[1..])
  }

  /** `capitalizeFully`: lower-case the input, split it on spaces, upper-case
      the first character of every word, join with spaces and trim.
      `charAt(0)` of an empty word throws. */
  function CapitalizeFully(input: string): (r: Result<string>)
    ensures r.Err? <==> "" in Split(LowerAll(input))
    ensures r.Err? ==> r.fault == StringIndexOutOfBounds
  {
    var words := Split(LowerAll(input));
    if exists k :: 0 <= k < |words| && words[k] == "" then Err(StringIndexOutOfBounds)
    else Ok(Trim(EmitAll(words)))
  }

  /** A word as it comes out of `capitalizeFully`. */
  function Capitalized(w: string): string
    requires w != []
  {
    [Upper(Lower(w[0]))] + LowerAll(w[1..])
  }

  /** Splitting at every space and joining again gives the string back. */
  lemma {:induction false} JoinPieces(s: string)
    ensures Join(Pieces(s)) == s
  {
    if s != [] {
      JoinPieces(s[1..]);
      var rest := Pieces(s[1..]);
      if s[0] != ' ' {
        if |rest| > 1 {
          assert rest == [rest[0]] + rest[1..];
          assert Join(rest) == rest[0] + " " + Join(rest[1..]);
        }
      }
    }
  }

  /** Joining words without spaces and splitting at every space gives the
      words back. */
  lemma {:induction false} PiecesJoin(ws: seq<string>)
    requires |ws| >= 1 && forall k :: 0 <= k < |ws| ==> ' ' !in ws[k]
    ensures Pieces(Join(ws)) == ws
    decreases |Join(ws)|
  {
    if |ws| == 1 {
      PiecesWord(ws[0]);
    } else {
      var w := ws[0];
      PiecesWordThen(w, Join(ws[1..]));
      PiecesJoin(ws[1..]);
    }
  }

  lemma {:induction false} PiecesWord(w: string)
    requires ' ' !in w
    ensures Pieces(w) == [w]
  {
    if w != [] {
      PiecesWord(w[1..]);
      assert w[0] != ' ';
      assert [w[0]] + w[1..] == w;
    }
  }

  /** A word followed by a space and a tail: the word is the first piece. */
  lemma {:induction false} PiecesWordThen(w: string, t: string)
    requires ' ' !in w
    ensures Pieces(w + " " + t) == [w] + Pieces(t)
  {
    if w == [] {
      assert w + " " + t == [' '] + t;
    } else {
      var u := w + " " + t;
      assert u[0] == w[0] && w[0] != ' ';
      assert u[1..] == w[1..] + " " + t;
      PiecesWordThen(w[1..], t);
      assert Pieces(u) == [[w[0]] + w[1..]] + Pieces(t);
      assert [w[0]] + w[1..] == w;
    }
  }

  function LowerWords(ws: seq<string>): (r: seq<string>)
    ensures |r| == |ws| && forall k :: 0 <= k < |ws| ==> r[k] == LowerAll(ws[k])
  {
    if ws == [] then [] else [LowerAll(ws[0])] + LowerWords(ws[1..])
  }

  function CapitalizeWords(ws: seq<string>): (r: seq<string>)
    requires forall k :: 0 <= k < |ws| ==> ws[k] != []
    ensures |r| == |ws| && forall k :: 0 <= k < |ws| ==> r[k] == Capitalized(ws[k])
  {
    if ws == [] then [] else [Capitalized(ws[0])] + CapitalizeWords(ws[1..])
  }

  lemma LowerConcat(a: string, b: string)
    ensures LowerAll(a + b) == LowerAll(a) + LowerAll(b)
  {
  }

  /** Lower-casing maps a joined string to the join of the lower-cased words. */
  lemma {:induction false} LowerJoin(ws: seq<string>)
    ensures LowerAll(Join(ws)) == Join(LowerWords(ws))
  {
    if |ws| > 1 {
      LowerJoin(ws[1..]);
      LowerConcat(ws[0] + " ", Join(ws[1..]));
      LowerConcat(ws[0], " ");
      assert LowerWords(ws)[1..] == LowerWords(ws[1..]);
    }
  }

  /** The text emitted for lower-cased words is the join of the capitalized
      words followed by one space. */
  lemma {:induction false} EmitAllJoin(ws: seq<string>)
    requires |ws| >= 1 && forall k :: 0 <= k < |ws| ==> ws[k] != []
    ensures EmitAll(LowerWords(ws)) == Join(CapitalizeWords(ws)) + " "
  {
    var lw := LowerWords(ws);
    assert lw[0] == LowerAll(ws[0]);
    assert Emit(lw[0]) == Capitalized(ws[0]) + " ";
    if |ws| > 1 {
      EmitAllJoin(ws[1..]);
      assert lw[1..] == LowerWords(ws[1..]);
      assert CapitalizeWords(ws)[1..] == CapitalizeWords(ws[1..]);
    }
  }

  /** Non-empty words without blank characters, spaces included. */
  predicate Clean(ws: seq<string>) {
    forall k :: 0 <= k < |ws| ==> ws[k] != [] && forall i :: 0 <= i < |ws[k]| ==> !Blank(ws[k][i])
  }

  /** Words without blank characters come out capitalized, joined by single
      spaces. */
  lemma CapitalizesWords(ws: seq<string>)
    requires |ws| >= 1 && Clean(ws)
    ensures CapitalizeFully(Join(ws)) == Ok(Join(CapitalizeWords(ws)))
  {
    var lw := LowerWords(ws);
    LowerJoin(ws);
    LowerWordsClean(ws);
    SplitClean(lw);
    assert Split(LowerAll(Join(ws))) == lw;
    assert !("" in lw);
    EmitAllJoin(ws);
    var j := Join(CapitalizeWords(ws));
    CapitalizeWordsClean(ws);
    JoinNotBlankEnds(CapitalizeWords(ws));
    TrimJoin(j);
  }

  /** Trimming a text that neither starts nor ends blank, followed by one
      space, drops just that space. */
  lemma TrimJoin(j: string)
    requires j != [] && !Blank(j[0]) && !Blank(j[|j| - 1])
    ensures Trim(j + " ") == j
  {
    var t := j + " ";
    assert LeadingBlanks(t) == 0;
    assert TrimStart(t) == t[0..] == t;
    assert t[..|t| - 1] == j;
    assert TrimEnd(t) == TrimEnd(j) == j;
  }

  lemma LowerWordsClean(ws: seq<string>)
    requires Clean(ws)
    ensures Clean(LowerWords(ws))
  {
    forall k | 0 <= k < |ws|
      ensures LowerWords(ws)[k] != [] && forall i :: 0 <= i < |LowerWords(ws)[k]| ==> !Blank(LowerWords(ws)[k][i])
    {
      LowerNotBlank(ws[k]);
    }
  }

  lemma LowerNotBlank(w: string)
    requires forall i :: 0 <= i < |w| ==> !Blank(w[i])
    ensures forall i :: 0 <= i < |w| ==> !Blank(LowerAll(w)[i])
  {
  }

  lemma CapitalizeWordsClean(ws: seq<string>)
    requires Clean(ws)
    ensures Clean(CapitalizeWords(ws))
  {
    forall k | 0 <= k < |ws|
      ensures CapitalizeWords(ws)[k] != [] && forall i :: 0 <= i < |CapitalizeWords(ws)[k]| ==> !Blank(CapitalizeWords(ws)[k][i])
    {
      LowerNotBlank(ws[k][1..]);
    }
  }

  /** Splitting the join of clean words gives the words back. */
  lemma SplitClean(ws: seq<string>)
    requires |ws| >= 1 && Clean(ws)
    ensures Split(Join(ws)) == ws
  {
    assert forall k :: 0 <= k < |ws| ==> ' ' !in ws[k];
    if |ws| == 1 {
      assert Join(ws) == ws[0];
    } else {
      assert Join(ws) == ws[0] + " " + Join(ws[1..]);
      assert Join(ws)[|ws[0]|] == ' ';
      PiecesJoin(ws);
    }
  }

  /** The join of words with no blank characters neither starts nor ends
      with one. */
  lemma {:induction false} JoinNotBlankEnds(ws: seq<string>)
    requires |ws| >= 1 && Clean(ws)
    ensures Join(ws) != [] && !Blank(Join(ws)[0]) && !Blank(Join(ws)[|Join(ws)| - 1])
  {
    if |ws| > 1 {
      JoinNotBlankEnds(ws[1..]);
      var j := Join(ws[1..]);
      assert Join(ws) == ws[0] + " " + j;
    }
  }

  /** A capitalized word stays as it is when capitalized again. */
  lemma CapitalizedIdempotent(w: string)
    requires w != []
    ensures Capitalized(Capitalized(w)) == Capitalized(w)
  {
  }

  /** An empty input fails: its only word is empty. */
  lemma CapitalizeFullyEmpty()
    ensures CapitalizeFully("") == Err(StringIndexOutOfBounds)
  {
    assert Split(LowerAll("")) == [""];
  }

  /** Two spaces in a row leave an empty word between them, which fails. */
  lemma CapitalizeFullyDoubleSpace()
    ensures CapitalizeFully("a  b") == Err(StringIndexOutOfBounds)
  {
    assert LowerAll("a  b") == "a  b";
    PiecesWord("b");
    PiecesWordThen("", "b");
    assert "" + " " + "b" == " b";
    PiecesWordThen("a", " b");
    assert "a" + " " + " b" == "a  b";
    assert Pieces("a  b") == ["a", "", "b"];
    assert Split("a  b")[1] == "";
  }

  /** A leading space leaves an empty first word, which fails: the input is
      not trimmed before it is split. */
  lemma CapitalizeFullyLeadingSpace()
    ensures CapitalizeFully(" a") == Err(StringIndexOutOfBounds)
  {
    assert LowerAll(" a") == " a";
    PiecesWord("a");
    PiecesWordThen("", "a");
    assert "" + " " + "a" == " a";
    assert Pieces(" a") == ["", "a"];
    assert Split(" a")[0] == "";
  }

  /** A trailing space is dropped by the split, so it does no harm. */
  lemma CapitalizeFullyTrailingSpace(ws: seq<string>)
    requires |ws| >= 1 && Clean(ws)
    ensures CapitalizeFully(Join(ws) + " ") == CapitalizeFully(Join(ws))
  {
    var lw := LowerWords(ws);
    LowerJoin(ws);
    LowerConcat(Join(ws), " ");
    assert LowerAll(" ") == " ";
    LowerWordsClean(ws);
    SplitTrailingSpace(lw);
    SplitClean(lw);
  }

  /** Joining with one more word appends a space and that word. */
  lemma {:induction false} JoinSnoc(ws: seq<string>, w: string)
    requires |ws| >= 1
    ensures Join(ws + [w]) == Join(ws) + " " + w
  {
    if |ws| > 1 {
      JoinSnoc(ws[1..], w);
      assert (ws + [w])[1..] == ws[1..] + [w];
    }
  }

  /** The join of clean words followed by one space splits into the words. */
  lemma SplitTrailingSpace(ws: seq<string>)
    requires |ws| >= 1 && Clean(ws)
    ensures Split(Join(ws) + " ") == ws
  {
    var us := ws + [""];
    JoinSnoc(ws, "");
    assert Join(us) == Join(ws) + " ";
    assert forall k :: 0 <= k < |us| ==> ' ' !in us[k];
    PiecesJoin(us);
    assert (Join(ws) + " ")[|Join(ws)|] == ' ';
    assert us[..|us| - 1] == ws;
    assert ws[|ws| - 1] != [];
  }

  /** A lone space splits into no words at all and gives the empty string. */
  lemma CapitalizeFullyLoneSpace()
    ensures CapitalizeFully(" ") == Ok("")
  {
    assert LowerAll(" ") == " ";
    PiecesWordThen("", "");
    assert "" + " " + "" == " ";
    assert Pieces(" ") == ["", ""];
    assert Split(" ") == [];
  }
}
