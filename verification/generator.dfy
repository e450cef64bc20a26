/** The tab-separated sheet to inventory-records conversion: cell
    normalisation, splitting of multi-valued cells, yes/no conversion, the
    integer id, the snake-case keys and the row and sheet loops. */
module Generator {
  import opened Wrappers
  import opened Values
  import opened Text
  import opened Records
  import opened Seqs

  /* ---------------- Cleaning split pieces ---------------- */

  /** A non-empty string with no surrounding whitespace: what survives the
      cleaning of a split, and what `Strip` leaves unchanged. */
  predicate Clean(s: string) {
    |s| > 0 && !IsSpace(s[0]) && !IsSpace(s[|s| - 1])
  }

  /** Every piece stripped of surrounding whitespace, in order. */
  function StripAll(pieces: seq<string>): (r: seq<string>)
    ensures |r| == |pieces|
    ensures forall i :: 0 <= i < |r| ==> r[i] == Strip(pieces[i])
  {
    if |pieces| == 0 then [] else [Strip(pieces[0])] + StripAll(pieces[1..])
  }

  /** The comprehension's `if s.strip()`: a stripped piece is kept when it
      is not empty. */
  predicate NonBlank(t: string) {
    |t| > 0
  }

  /** `[s.strip() for s in pieces if s.strip()]`: the stripped pieces that
      are not empty, in order; `CleanPiecesKeepsNonBlank` states that none
      is lost or reordered and `CleanPiecesClean` that each is clean. */
  function CleanPieces(pieces: seq<string>): (r: seq<string>)
    ensures |r| <= |pieces|
  {
    if |pieces| == 0 then []
    else
      var t := Strip(pieces[0]);
      var rest := CleanPieces(pieces[1..]);
      if |t| > 0 then
        [t] + rest
      else
        rest
  }

  /** The comprehension keeps exactly the non-empty stripped pieces, in
      order and with their repetitions: it is the stable filter of the
      stripped pieces by `NonBlank`. */
  lemma {:induction false} CleanPiecesKeepsNonBlank(pieces: seq<string>)
    ensures CleanPieces(pieces) == Keep(StripAll(pieces), NonBlank)
    decreases |pieces|
  {
    if |pieces| > 0 {
      CleanPiecesKeepsNonBlank(pieces[1..]);
      assert StripAll(pieces)[1..] == StripAll(pieces[1..]);
    }
  }

  /** Pieces that are already clean come through unchanged. */
  lemma {:induction false} CleanPiecesFixed(parts: seq<string>)
    requires forall i :: 0 <= i < |parts| ==> Clean(parts[i])
    ensures CleanPieces(parts) == parts
    decreases |parts|
  {
    if |parts| > 0 {
      StripUnpadded(parts[0]);
      CleanPiecesFixed(parts[1..]);
    }
  }

  /** Every kept piece is clean and is one of the stripped pieces. */
  lemma CleanPiecesClean(pieces: seq<string>)
    ensures forall x :: x in CleanPieces(pieces) ==> Clean(x) && x in StripAll(pieces)
  {
    var stripped := StripAll(pieces);
    CleanPiecesKeepsNonBlank(pieces);
    forall x | x in CleanPieces(pieces)
      ensures Clean(x) && x in stripped
    {
      assert x in stripped && NonBlank(x);
      var j :| 0 <= j < |pieces| && stripped[j] == x;
    }
  }

  /** A piece of a split on `sep` is clean and does not contain `sep` once
      cleaned. */
  lemma CleanPiecesAvoid(s: string, sep: string)
    requires |sep| > 0
    ensures forall x :: x in CleanPieces(Split(s, sep)) ==> Clean(x) && !Contains(x, sep)
  {
    var pieces := Split(s, sep);
    var stripped := StripAll(pieces);
    CleanPiecesClean(pieces);
    forall x | x in CleanPieces(pieces)
      ensures !Contains(x, sep)
    {
      var j :| 0 <= j < |pieces| && stripped[j] == x;
      assert !Contains(pieces[j], sep);
      ContainsInStrip(pieces[j], sep);
    }
  }

  /* ---------------- Multi-valued cells ---------------- */

  /** `parse_multivalued`: nothing for a missing or empty cell; otherwise
      the cell is split on the first of ",", ";" and " / " that it
      contains, keeping the stripped non-empty pieces (so a cell of
      delimiters only gives the empty list); a cell with none of them
      becomes a one-element list of itself, stripped. */
  function ParseMultivalued(v: Option<string>): (r: Option<seq<string>>)
    ensures r.None? <==> v.None? || v.value == []
    ensures r.Some? && !AllSpace(v.value) ==> forall x :: x in r.value ==> Clean(x)
    ensures r.Some? && Contains(v.value, ",") ==>
      forall x :: x in r.value ==> Clean(x) && !Contains(x, ",")
    ensures r.Some? && !Contains(v.value, ",") && Contains(v.value, ";") ==>
      forall x :: x in r.value ==> Clean(x) && !Contains(x, ";")
    ensures r.Some? && !Contains(v.value, ",") && !Contains(v.value, ";") && Contains(v.value, " / ") ==>
      forall x :: x in r.value ==> Clean(x) && !Contains(x, " / ")
    ensures r.Some? && !Contains(v.value, ",") && !Contains(v.value, ";") && !Contains(v.value, " / ") ==>
      r.value == [Strip(v.value)]
    ensures r.Some? && Contains(v.value, ",") ==> r.value == CleanPieces(Split(v.value, ","))
    ensures r.Some? && !Contains(v.value, ",") && Contains(v.value, ";") ==>
      r.value == CleanPieces(Split(v.value, ";"))
    ensures r.Some? && !Contains(v.value, ",") && !Contains(v.value, ";") && Contains(v.value, " / ") ==>
      r.value == CleanPieces(Split(v.value, " / "))
  {
    if v.None? || v.value == [] then None
    else
      var s := v.value;
      if Contains(s, ",") then
        CleanPiecesAvoid(s, ",");
        Some(CleanPieces(Split(s, ",")))
      else if Contains(s, ";") then
        CleanPiecesAvoid(s, ";");
        Some(CleanPieces(Split(s, ";")))
      else if Contains(s, " / ") then
        CleanPiecesAvoid(s, " / ");
        Some(CleanPieces(Split(s, " / ")))
      else
        assert !AllSpace(s) ==> Clean(Strip(s));
        Some([Strip(s)])
  }

  /** A character found in a concatenation is found in one of its halves. */
  lemma ContainsCharInAppend(a: string, b: string, c: string)
    requires |c| == 1 && Contains(a + b, c)
    ensures Contains(a, c) || Contains(b, c)
  {
    var i: nat :| Occurs(a + b, c, i);
    if i < |a| {
      assert a[i..i + 1] == (a + b)[i..i + 1];
      assert Occurs(a, c, i);
    } else {
      assert b[i - |a|..i - |a| + 1] == (a + b)[i..i + 1];
      assert Occurs(b, c, i - |a|);
    }
  }

  /** Joining pieces that avoid a character, with a separator that avoids
      it too, gives a string that avoids it. */
  lemma {:induction false} JoinAvoids(parts: seq<string>, sep: string, c: string)
    requires |c| == 1 && !Contains(sep, c)
    requires forall i :: 0 <= i < |parts| ==> !Contains(parts[i], c)
    ensures !Contains(Join(parts, sep), c)
    decreases |parts|
  {
    if |parts| > 1 {
      JoinAvoids(parts[1..], sep, c);
      var tail := Join(parts[1..], sep);
      if Contains(parts[0] + sep + tail, c) {
        ContainsCharInAppend(parts[0] + sep, tail, c);
        if Contains(parts[0] + sep, c) {
          ContainsCharInAppend(parts[0], sep, c);
        }
        assert false;
      }
    }
  }

  /** Joining two or more pieces puts the separator in the result. */
  lemma JoinHasSeparator(parts: seq<string>, sep: string)
    requires |parts| >= 2
    ensures Contains(Join(parts, sep), sep)
  {
    var s := Join(parts, sep);
    assert s == parts[0] + sep + Join(parts[1..], sep);
    assert s[|parts[0]|..|parts[0]| + |sep|] == sep;
    assert Occurs(s, sep, |parts[0]|);
  }

  /** Splitting on the separator found in a non-empty cell and cleaning
      the pieces gives clean pieces back when they were joined with it. */
  lemma SplitCleanJoined(parts: seq<string>, sep: string)
    requires |sep| == 1 && |parts| >= 1
    requires forall i :: 0 <= i < |parts| ==> Clean(parts[i]) && !Contains(parts[i], sep)
    ensures CleanPieces(Split(Join(parts, sep), sep)) == parts
  {
    SplitJoin(parts, sep);
    CleanPiecesFixed(parts);
  }

  /** Writing two or more clean values joined by "," and parsing the cell
      gives the values back, provided none contains a comma. */
  lemma ParseCommaJoined(parts: seq<string>)
    requires |parts| >= 2
    requires forall i :: 0 <= i < |parts| ==> Clean(parts[i]) && !Contains(parts[i], ",")
    ensures ParseMultivalued(Some(Join(parts, ","))) == Some(parts)
  {
    JoinHasSeparator(parts, ",");
    SplitCleanJoined(parts, ",");
  }

  /** The same round trip with ";", for values holding neither a comma nor
      a semicolon. */
  lemma ParseSemicolonJoined(parts: seq<string>)
    requires |parts| >= 2
    requires forall i :: 0 <= i < |parts| ==>
      Clean(parts[i]) && !Contains(parts[i], ",") && !Contains(parts[i], ";")
    ensures ParseMultivalued(Some(Join(parts, ";"))) == Some(parts)
  {
    JoinHasSeparator(parts, ";");
    assert !Contains(";", ",");
    JoinAvoids(parts, ";", ",");
    SplitCleanJoined(parts, ";");
  }

  /** A single clean value with no delimiter in it parses to itself. */
  lemma ParseSingle(value: string)
    requires Clean(value)
    requires !Contains(value, ",") && !Contains(value, ";") && !Contains(value, " / ")
    ensures ParseMultivalued(Some(value)) == Some([value])
  {
    StripUnpadded(value);
  }

  /** A cell whose comma-separated pieces are all blank, such as "," or
      " , ,", parses to the empty list, not to nothing: the pieces are
      dropped one by one. */
  lemma ParseBlankPieces(parts: seq<string>)
    requires |parts| >= 2
    requires forall i :: 0 <= i < |parts| ==> AllSpace(parts[i])
    ensures ParseMultivalued(Some(Join(parts, ","))) == Some([])
  {
    forall i | 0 <= i < |parts|
      ensures !Contains(parts[i], ",")
    {
      BlankHasNoComma(parts[i]);
    }
    JoinHasSeparator(parts, ",");
    SplitJoin(parts, ",");
    CleanPiecesBlank(parts);
  }

  /** A blank piece holds no comma. */
  lemma BlankHasNoComma(p: string)
    requires AllSpace(p)
    ensures !Contains(p, ",")
  {
    ContainsCharIff(p, ',');
    assert !IsSpace(',');
  }

  /** Blank pieces are all dropped. */
  lemma {:induction false} CleanPiecesBlank(parts: seq<string>)
    requires forall i :: 0 <= i < |parts| ==> AllSpace(parts[i])
    ensures CleanPieces(parts) == []
    decreases |parts|
  {
    if |parts| > 0 {
      CleanPiecesBlank(parts[1..]);
    }
  }

  /** Pieces that strip to clean values clean to exactly those values. */
  lemma CleanPiecesStripped(pieces: seq<string>, values: seq<string>)
    requires StripAll(pieces) == values
    requires forall i :: 0 <= i < |values| ==> Clean(values[i])
    ensures CleanPieces(pieces) == values
  {
    CleanPiecesKeepsNonBlank(pieces);
    KeepAll(values, NonBlank);
  }

  /** A lone comma is a list with nothing in it. */
  lemma ParseLoneComma()
    ensures ParseMultivalued(Some(",")) == Some([])
  {
    assert Join(["", ""], ",") == ",";
    ParseBlankPieces(["", ""]);
  }

  /** Every value with a space put before it. */
  function SpaceBefore(parts: seq<string>): (r: seq<string>)
    ensures |r| == |parts|
    ensures forall i :: 0 <= i < |parts| ==> r[i] == " " + parts[i]
  {
    if |parts| == 0 then [] else [" " + parts[0]] + SpaceBefore(parts[1..])
  }

  /** Joining with ", " is joining with "," after putting a space before
      every value but the first. */
  lemma {:induction false} JoinSpaceBefore(parts: seq<string>)
    requires |parts| >= 1
    ensures Join(SpaceBefore(parts), ",") == " " + Join(parts, ", ")
    decreases |parts|
  {
    if |parts| > 1 {
      JoinSpaceBefore(parts[1..]);
      assert SpaceBefore(parts)[1..] == SpaceBefore(parts[1..]);
      var tail := Join(parts[1..], ", ");
      assert (" " + parts[0]) + "," + (" " + tail) == " " + (parts[0] + ", " + tail);
    }
  }

  /** A space put before a clean value is stripped off again. */
  lemma StripSpaceBefore(value: string)
    requires Clean(value)
    ensures Strip(" " + value) == value
  {
    var s := " " + value;
    assert IsSpace(s[0]);
    assert s[1..] == value;
    assert TrimStart(s) == TrimStart(value);
    TrimStartNoLead(value);
    TrimEndNoTrail(value);
  }

  /** The usual way a list cell is written, values joined by ", ", parses
      back to the values, provided they are clean and hold no comma. */
  lemma ParseCommaSpaceJoined(parts: seq<string>)
    requires |parts| >= 2
    requires forall i :: 0 <= i < |parts| ==> Clean(parts[i]) && !Contains(parts[i], ",")
    ensures ParseMultivalued(Some(Join(parts, ", "))) == Some(parts)
  {
    var q := Spaced(parts);
    var s := Join(q, ",");
    assert s == Join(parts, ", ") by {
      CommaSpaceIsComma(parts);
    }
    assert Split(s, ",") == q by {
      SpacedNoComma(parts);
      SplitJoin(q, ",");
    }
    assert CleanPieces(q) == parts by {
      SpacedStrip(parts);
      CleanPiecesStripped(q, parts);
    }
    assert Contains(s, ",") by {
      JoinHasSeparator(q, ",");
    }
    ParseOnComma(s);
  }

  /** A cell holding a comma is cleaned from its comma pieces. */
  lemma ParseOnComma(s: string)
    requires Contains(s, ",")
    ensures ParseMultivalued(Some(s)) == Some(CleanPieces(Split(s, ",")))
  {
  }

  /** The values with a space put before every one but the first: the
      "," pieces of their ", " join. */
  function Spaced(parts: seq<string>): (r: seq<string>)
    requires |parts| >= 1
    ensures |r| == |parts| && r[0] == parts[0]
    ensures forall i :: 1 <= i < |parts| ==> r[i] == " " + parts[i]
  {
    [parts[0]] + SpaceBefore(parts[1..])
  }

  /** The first step of a join. */
  lemma JoinCons(parts: seq<string>, sep: string)
    requires |parts| >= 2
    ensures Join(parts, sep) == parts[0] + sep + Join(parts[1..], sep)
  {
  }

  /** The ", " join as a "," join of spaced values. */
  lemma CommaSpaceIsComma(parts: seq<string>)
    requires |parts| >= 2
    ensures Join(Spaced(parts), ",") == Join(parts, ", ")
  {
    var q := Spaced(parts);
    var tail := Join(parts[1..], ", ");
    JoinCons(q, ",");
    assert q[1..] == SpaceBefore(parts[1..]);
    JoinSpaceBefore(parts[1..]);
    JoinCons(parts, ", ");
    CommaThenSpace(parts[0], tail);
  }

  /** Gluing "," and then " " is gluing ", ". */
  lemma CommaThenSpace(a: string, t: string)
    ensures a + "," + (" " + t) == a + ", " + t
  {
    assert "," + " " == ", ";
  }

  /** A space put before a value adds no comma. */
  lemma SpaceBeforeNoComma(p: string)
    requires !Contains(p, ",")
    ensures !Contains(" " + p, ",")
  {
    ContainsCharIff(p, ',');
    ContainsCharIff(" " + p, ',');
  }

  /** The spaced values hold no comma. */
  lemma SpacedNoComma(parts: seq<string>)
    requires |parts| >= 1
    requires forall i :: 0 <= i < |parts| ==> !Contains(parts[i], ",")
    ensures forall i :: 0 <= i < |Spaced(parts)| ==> !Contains(Spaced(parts)[i], ",")
  {
    var q := Spaced(parts);
    forall i | 0 <= i < |q|
      ensures !Contains(q[i], ",")
    {
      if i > 0 {
        SpaceBeforeNoComma(parts[i]);
      }
    }
  }

  /** The spaced values strip back to the values. */
  lemma SpacedStrip(parts: seq<string>)
    requires |parts| >= 1
    requires forall i :: 0 <= i < |parts| ==> Clean(parts[i])
    ensures StripAll(Spaced(parts)) == parts
  {
    var q := Spaced(parts);
    forall i | 0 <= i < |q|
      ensures StripAll(q)[i] == parts[i]
    {
      if i == 0 {
        StripUnpadded(parts[0]);
      } else {
        StripSpaceBefore(parts[i]);
      }
    }
  }

  /* ---------------- Yes/no cells ---------------- */

  /** `s.strip().lower()`. */
  function Folded(s: string): string {
    Lower(Strip(s))
  }

  /** Folding ignores letter case and surrounding whitespace. */
  lemma FoldedNormalises(s: string)
    ensures Folded(Lower(s)) == Folded(s)
    ensures Folded(Strip(s)) == Folded(s)
  {
    StripLower(s);
    LowerIdempotent(Strip(s));
    StripIdempotent(s);
  }

  /** `convert_to_boolean`: "yes" and "no" in any letter case and with any
      surrounding whitespace become true and false, "na" becomes the
      string "NA", anything else (and a missing cell) becomes null. */
  function ConvertToBoolean(v: Option<string>): (r: Value)
    ensures r == Null || r == Bool(true) || r == Bool(false) || r == Text("NA")
    ensures v.None? ==> r == Null
    ensures v.Some? && Folded(v.value) == "yes" ==> r == Bool(true)
  {
    if v.None? then Null
    else
      var n := Folded(v.value);
      if n == "yes" then Bool(true)
      else if n == "no" then Bool(false)
      else if n == "na" then Text("NA")
      else Null
  }

  /** Each of the four results, and the folded words that produce it. */
  lemma ConvertToBooleanCases(s: string)
    ensures ConvertToBoolean(Some(s)) == Bool(true) <==> Folded(s) == "yes"
    ensures ConvertToBoolean(Some(s)) == Bool(false) <==> Folded(s) == "no"
    ensures ConvertToBoolean(Some(s)) == Text("NA") <==> Folded(s) == "na"
    ensures ConvertToBoolean(Some(s)) == Null <==> Folded(s) != "yes" && Folded(s) != "no" && Folded(s) != "na"
  {
  }

  /** Cells that fold to the same word convert to the same value. */
  lemma ConvertToBooleanCongruent(a: string, b: string)
    requires Folded(a) == Folded(b)
    ensures ConvertToBoolean(Some(a)) == ConvertToBoolean(Some(b))
  {
  }

  /** The conversion ignores letter case and surrounding whitespace. */
  lemma ConvertToBooleanNormalises(s: string)
    ensures ConvertToBoolean(Some(Lower(s))) == ConvertToBoolean(Some(s))
    ensures ConvertToBoolean(Some(Strip(s))) == ConvertToBoolean(Some(s))
  {
    FoldedNormalises(s);
    ConvertToBooleanCongruent(Lower(s), s);
    ConvertToBooleanCongruent(Strip(s), s);
  }

  lemma FoldedNA()
    ensures Folded("NA") == "na"
  {
    FoldedClean("NA");
    assert Lower("NA") == "na" by {
      assert Lower("NA")[0] == 'n' && Lower("NA")[1] == 'a';
    }
  }

  /** A clean string folds to its lower-cased self. */
  lemma FoldedClean(w: string)
    requires Clean(w)
    ensures Folded(w) == Lower(w)
  {
    StripUnpadded(w);
  }

  /* ---------------- Cells ---------------- */

  /** The first step applied to every data cell: blank becomes missing,
      "na" in any case becomes "NA", anything else is stripped. */
  function NormaliseCell(cell: string): (r: Option<string>)
    ensures r.None? <==> AllSpace(cell)
    ensures r.Some? ==> Clean(r.value)
    ensures r.Some? && Folded(cell) != "na" ==> r.value == Strip(cell)
    ensures r.Some? && Folded(cell) == "na" ==> r.value == "NA"
  {
    if Strip(cell) == [] then None
    else if Folded(cell) == "na" then Some("NA")
    else Some(Strip(cell))
  }

  /** A normalised cell normalises to itself. */
  lemma NormaliseCellIdempotent(cell: string)
    requires NormaliseCell(cell).Some?
    ensures NormaliseCell(NormaliseCell(cell).value) == NormaliseCell(cell)
  {
    var s := NormaliseCell(cell).value;
    if s == "NA" {
      StripUnpadded("NA");
      FoldedNA();
    } else {
      FoldedNormalises(cell);
    }
  }

  /* ---------------- Keys ---------------- */

  function Underscore(s: string): (r: string)
    ensures |r| == |s|
    ensures forall i :: 0 <= i < |s| ==> r[i] == if s[i] == ' ' then '_' else s[i]
  {
    if |s| == 0 then [] else [if s[0] == ' ' then '_' else s[0]] + Underscore(s[1..])
  }

  /** `name.lower().replace(' ', '_')`: the record key of a column. A key
      has no spaces and no upper-case letters, and is as long as the name. */
  function KeyName(name: string): (r: string)
    ensures |r| == |name|
    ensures forall i :: 0 <= i < |name| ==> r[i] == if name[i] == ' ' then '_' else LowerChar(name[i])
    ensures forall i :: 0 <= i < |r| ==> r[i] != ' ' && !('A' <= r[i] <= 'Z')
  {
    Underscore(Lower(name))
  }

  /** A key is its own key. */
  lemma KeyNameIdempotent(name: string)
    ensures KeyName(KeyName(name)) == KeyName(name)
  {
    var k := KeyName(name);
    assert forall i :: 0 <= i < |k| ==> KeyName(k)[i] == k[i];
  }

  /* ---------------- The id ---------------- */

  predicate IsDigit(c: char) {
    '0' <= c <= '9'
  }

  predicate AllDigits(s: string) {
    forall i :: 0 <= i < |s| ==> IsDigit(s[i])
  }

  /** The decimal value of a digit string. */
  function DigitsValue(s: string): nat
    requires AllDigits(s)
  {
    if |s| == 0 then 0 else DigitsValue(s[..|s| - 1]) * 10 + (s[|s| - 1] as int - '0' as int)
  }

  /** What Python's `int` accepts, restricted to ASCII: an optional sign
      followed by at least one decimal digit. */
  predicate IsIntLiteral(s: string) {
    if |s| > 0 && (s[0] == '-' || s[0] == '+') then |s| > 1 && AllDigits(s[1..])
    else |s| > 0 && AllDigits(s)
  }

  /** `int(s)`, or nothing where it raises `ValueError`. */
  function ParseInt(s: string): (r: Option<int>)
    ensures r.Some? <==> IsIntLiteral(s)
    ensures r.Some? && s[0] == '-' ==> r.value <= 0
    ensures r.Some? && s[0] != '-' ==> r.value >= 0
  {
    if |s| > 0 && (s[0] == '-' || s[0] == '+') then
      if |s| > 1 && AllDigits(s[1..]) then
        var n: int := DigitsValue(s[1..]);
        Some(if s[0] == '-' then -n else n)
      else None
    else if |s| > 0 && AllDigits(s) then Some(DigitsValue(s))
    else None
  }

  /** The decimal digits of a natural number, without leading zeros. */
  function NatToDigits(n: nat): (r: string)
    ensures |r| >= 1 && AllDigits(r) && DigitsValue(r) == n
    ensures r[0] == '0' ==> n == 0
  {
    var d := [('0' as int + n % 10) as char];
    if n < 10 then d
    else
      var prefix := NatToDigits(n / 10);
      assert (prefix + d)[..|prefix + d| - 1] == prefix;
      prefix + d
  }

  /** The decimal form of an integer, as it is written back out. */
  function ShowInt(n: int): (r: string)
    ensures IsIntLiteral(r)
  {
    if n < 0 then "-" + NatToDigits(-n) else NatToDigits(n)
  }

  /** Reading back the decimal form of an integer gives the integer. */
  lemma ParseShowInt(n: int)
    ensures ParseInt(ShowInt(n)) == Some(n)
  {
    if n < 0 {
      assert ShowInt(n)[1..] == NatToDigits(-n);
    }
  }

  /** A leading zero does not change the value of a digit string. */
  lemma {:induction false} LeadingZero(s: string)
    requires AllDigits(s)
    ensures AllDigits("0" + s) && DigitsValue("0" + s) == DigitsValue(s)
    decreases |s|
  {
    var z := "0" + s;
    if |s| > 0 {
      var init := s[..|s| - 1];
      assert z[..|z| - 1] == "0" + init;
      assert z[|z| - 1] == s[|s| - 1];
      LeadingZero(init);
    } else {
      assert z[..0] == [];
    }
  }

  /** `k` zero digits. */
  function Zeros(k: nat): (r: string)
    ensures |r| == k && forall i :: 0 <= i < k ==> r[i] == '0'
  {
    if k == 0 then [] else "0" + Zeros(k - 1)
  }

  /** Any number of leading zeros leaves the value alone. */
  lemma {:induction false} LeadingZeros(k: nat, s: string)
    requires AllDigits(s)
    ensures AllDigits(Zeros(k) + s) && DigitsValue(Zeros(k) + s) == DigitsValue(s)
    decreases k
  {
    if k > 0 {
      LeadingZeros(k - 1, s);
      assert Zeros(k) + s == "0" + (Zeros(k - 1) + s);
      LeadingZero(Zeros(k - 1) + s);
    } else {
      assert Zeros(k) + s == s;
    }
  }

  /** `int` reads a digit string with any number of leading zeros, and with
      no sign, a "+" or a "-", as the value of its digits: "007" is 7 and
      "+5" is 5. */
  lemma ParseIntPadded(k: nat, d: string)
    requires |d| > 0 && AllDigits(d)
    ensures ParseInt(Zeros(k) + d) == Some(DigitsValue(d))
    ensures ParseInt("+" + (Zeros(k) + d)) == Some(DigitsValue(d))
    ensures ParseInt("-" + (Zeros(k) + d)).Some? && ParseInt("-" + (Zeros(k) + d)).value == -(DigitsValue(d) as int)
  {
    var p := Zeros(k) + d;
    LeadingZeros(k, d);
    ParseIntDigits(p);
  }

  /** A digit string, bare or after a sign, reads as its value. */
  lemma ParseIntDigits(p: string)
    requires |p| > 0 && AllDigits(p)
    ensures ParseInt(p) == Some(DigitsValue(p))
    ensures ParseInt("+" + p) == Some(DigitsValue(p))
    ensures ParseInt("-" + p).Some? && ParseInt("-" + p).value == -(DigitsValue(p) as int)
  {
    assert IsDigit(p[0]);
    assert ("+" + p)[1..] == p;
    assert ("-" + p)[1..] == p;
  }

  /** A cell reading "na" in any case is not an integer. */
  lemma ParseIntNA(cell: string)
    requires Folded(cell) == "na"
    ensures ParseInt(Strip(cell)).None?
  {
    var t := Strip(cell);
    assert LowerChar(t[0]) == 'n';
  }

  /* ---------------- Columns ---------------- */

  /** How a column's cells are converted. */
  datatype ColumnKind = YesNo | MultiValued | Identifier | Plain

  /** The columns whose cells are lists. */
  const MultivaluedFields: seq<string> :=
    ["Tag Team", "Level", "Platform", "Keywords", "Instruction Medium",
     "Delivery", "Language", "Programming Language", "Neuroimaging Software",
     "Imaging Modality", "Quadrants"]

  /** The columns whose cells are yes/no. */
  const BooleanFields: seq<string> := ["Open Dataset", "Assessment", "Exclude from ReproInventory"]

  /** The yes/no test is made first, then the list test, then the id test. */
  function KindOf(field: string): (k: ColumnKind)
    ensures k == YesNo <==> field in BooleanFields
    ensures k == MultiValued <==> field !in BooleanFields && field in MultivaluedFields
    ensures k == Identifier <==> field !in BooleanFields && field !in MultivaluedFields && field == "ID"
  {
    if field in BooleanFields then YesNo
    else if field in MultivaluedFields then MultiValued
    else if field == "ID" then Identifier
    else Plain
  }

  /** A list cell as written to the record: the list, or null. */
  function ListOrNull(l: Option<seq<string>>): Value {
    if l.Some? then List(l.value) else Null
  }

  /** A scalar cell as written to the record: the string, or null. */
  function TextOrNull(s: Option<string>): Value {
    if s.Some? then Text(s.value) else Null
  }

  /** The value of an id cell: the integer where it reads as one, the
      string where it does not. */
  function IdValue(s: string): (r: Value)
    ensures ParseInt(s).Some? ==> r == Int(ParseInt(s).value)
    ensures ParseInt(s).None? ==> r == Text(s)
  {
    match ParseInt(s)
    case Some(n) => Int(n)
    case None => Text(s)
  }

  /** "NA" has no delimiter, so it parses to a one-element list. */
  lemma NAIsSingle()
    ensures ParseMultivalued(Some("NA")) == Some(["NA"])
  {
    NADelimiterFree();
    ParseSingle("NA");
  }

  lemma NADelimiterFree()
    ensures Clean("NA")
    ensures !Contains("NA", ",") && !Contains("NA", ";") && !Contains("NA", " / ")
  {
    ContainsCharIff("NA", ',');
    ContainsCharIff("NA", ';');
  }

  /** The value one cell contributes to its record. The cell is
      normalised first; a yes/no column then converts it, a list column
      splits it, the "ID" column reads an integer (keeping the string where
      it is not one), any other column keeps the string. */
  function CellValue(field: string, cell: string): Value {
    var processed := NormaliseCell(cell);
    match KindOf(field)
    case YesNo => ConvertToBoolean(processed)
    case MultiValued => ListOrNull(ParseMultivalued(processed))
    case Identifier => if processed.Some? then IdValue(processed.value) else Null
    case Plain => TextOrNull(processed)
  }

  /** A blank cell is null in every kind of column. */
  lemma CellBlank(field: string, cell: string)
    requires AllSpace(cell)
    ensures CellValue(field, cell) == Null
  {
  }

  /** A yes/no column converts the raw cell: normalising it first changes
      nothing, so the value is true exactly for "yes" and false exactly for
      "no", in any letter case and with any padding. */
  lemma CellYesNo(field: string, cell: string)
    requires KindOf(field) == YesNo
    ensures CellValue(field, cell) == ConvertToBoolean(Some(cell))
    ensures CellValue(field, cell) == Bool(true) <==> Folded(cell) == "yes"
    ensures CellValue(field, cell) == Bool(false) <==> Folded(cell) == "no"
  {
    assert CellValue(field, cell) == ConvertToBoolean(NormaliseCell(cell));
    ConvertNormalised(cell);
    ConvertToBooleanCases(cell);
  }

  /** Normalising a cell before the yes/no conversion changes nothing. */
  lemma ConvertNormalised(cell: string)
    ensures ConvertToBoolean(NormaliseCell(cell)) == ConvertToBoolean(Some(cell))
  {
    if AllSpace(cell) {
      ConvertBlank(cell);
    } else if Folded(cell) == "na" {
      ConvertNormalisedNA(cell);
    } else {
      ConvertNormalisedWord(cell);
    }
  }

  lemma ConvertNormalisedNA(cell: string)
    requires !AllSpace(cell) && Folded(cell) == "na"
    ensures ConvertToBoolean(NormaliseCell(cell)) == ConvertToBoolean(Some(cell))
  {
    assert NormaliseCell(cell) == Some("NA");
    FoldedNA();
    ConvertFoldedNA("NA");
    ConvertFoldedNA(cell);
  }

  /** Whatever folds to "na" converts to the string "NA". */
  lemma ConvertFoldedNA(s: string)
    requires Folded(s) == "na"
    ensures ConvertToBoolean(Some(s)) == Text("NA")
  {
    assert Folded(s)[0] == 'n' && Folded(s)[1] == 'a';
  }

  lemma ConvertNormalisedWord(cell: string)
    requires !AllSpace(cell) && Folded(cell) != "na"
    ensures ConvertToBoolean(NormaliseCell(cell)) == ConvertToBoolean(Some(cell))
  {
    assert NormaliseCell(cell) == Some(Strip(cell));
    FoldedNormalises(cell);
    ConvertToBooleanCongruent(Strip(cell), cell);
  }

  /** A blank cell converts to null. */
  lemma ConvertBlank(cell: string)
    requires AllSpace(cell)
    ensures ConvertToBoolean(Some(cell)) == Null
  {
    assert Folded(cell) == [];
  }

  /** A list column gives null for a blank cell, ["NA"] for "na", and
      otherwise the parse of the stripped cell: a list of clean strings. */
  lemma CellList(field: string, cell: string)
    requires KindOf(field) == MultiValued
    ensures AllSpace(cell) ==> CellValue(field, cell) == Null
    ensures !AllSpace(cell) && Folded(cell) == "na" ==> CellValue(field, cell) == List(["NA"])
    ensures !AllSpace(cell) && Folded(cell) != "na" ==>
      ParseMultivalued(Some(Strip(cell))).Some? &&
      CellValue(field, cell) == List(ParseMultivalued(Some(Strip(cell))).value)
    ensures !AllSpace(cell) ==>
      CellValue(field, cell).List? && forall x :: x in CellValue(field, cell).items ==> Clean(x)
  {
    var processed := NormaliseCell(cell);
    assert CellValue(field, cell) == ListOrNull(ParseMultivalued(processed));
    if processed.Some? {
      var w := processed.value;
      assert !AllSpace(w) by {
        assert !IsSpace(w[0]);
      }
      if Folded(cell) == "na" {
        NAIsSingle();
      }
    }
  }

  /** The id column reads the stripped cell as an integer, keeping the
      string where it is not one; "na" becomes "NA". */
  lemma CellIdentifier(field: string, cell: string)
    requires KindOf(field) == Identifier
    ensures !AllSpace(cell) && Folded(cell) != "na" ==> CellValue(field, cell) == IdValue(Strip(cell))
    ensures !AllSpace(cell) && Folded(cell) == "na" ==> CellValue(field, cell) == Text("NA")
    ensures ParseInt(Strip(cell)).Some? ==> CellValue(field, cell) == Int(ParseInt(Strip(cell)).value)
  {
    var processed := NormaliseCell(cell);
    if processed.Some? && Folded(cell) == "na" {
      NotApplicableValues();
      assert ParseInt(Strip(cell)).None? by {
        ParseIntNA(cell);
      }
    }
  }

  /** Any other column keeps the stripped cell, or "NA" for "na". */
  lemma CellPlain(field: string, cell: string)
    requires KindOf(field) == Plain
    ensures !AllSpace(cell) && Folded(cell) != "na" ==> CellValue(field, cell) == Text(Strip(cell))
    ensures !AllSpace(cell) && Folded(cell) == "na" ==> CellValue(field, cell) == Text("NA")
  {
  }

  /** A cell that normalises to "NA" (one reading "na" in any case and
      with any padding) is written as the string "NA", or as the list
      holding it in a list column. */
  lemma NotApplicableCell(field: string, cell: string)
    requires NormaliseCell(cell) == Some("NA")
    ensures CellValue(field, cell) == if KindOf(field) == MultiValued then List(["NA"]) else Text("NA")
  {
    NotApplicableValues();
  }

  /** What "NA" becomes in each kind of column. */
  lemma NotApplicableValues()
    ensures ConvertToBoolean(Some("NA")) == Text("NA")
    ensures ListOrNull(ParseMultivalued(Some("NA"))) == List(["NA"])
    ensures IdValue("NA") == Text("NA")
  {
    FoldedNA();
    NAIsSingle();
    assert ParseInt("NA").None?;
  }

  /** The keys of the given columns, in order. */
  function ColumnKeys(headers: seq<string>): (r: seq<string>)
    ensures |r| == |headers|
    ensures forall j :: 0 <= j < |headers| ==> r[j] == KeyName(headers[j])
  {
    if |headers| == 0 then [] else [KeyName(headers[0])] + ColumnKeys(headers[1..])
  }

  /** The record of one data row: each cell, left to right, stored under
      its column's key, a later column overwriting an earlier one with the
      same key. The "ID" column's key is `'ID'.lower()`, which is its
      `KeyName` too. */
  function ConvertRow(headers: seq<string>, row: seq<string>): Dict
    requires |row| <= |headers|
  {
    Assemble(Zip(ColumnKeys(headers[..|row|]), MapWith(CellValue, headers, row)))
  }

  /** A row's record is well formed and its keys are exactly the keys of
      the columns the row reaches. */
  lemma ConvertRowKeys(headers: seq<string>, row: seq<string>)
    requires |row| <= |headers|
    ensures ValidDict(ConvertRow(headers, row))
    ensures forall k :: k in ConvertRow(headers, row).values <==> k in ColumnKeys(headers[..|row|])
  {
    var cells := Zip(ColumnKeys(headers[..|row|]), MapWith(CellValue, headers, row));
    AssembleValid(cells);
    AssembleKeys(cells);
  }

  /** The last column with a key supplies that key's value. */
  lemma RowLastWins(headers: seq<string>, row: seq<string>, j: nat)
    requires |row| <= |headers| && j < |row|
    requires forall j' :: j < j' < |row| ==> KeyName(headers[j']) != KeyName(headers[j])
    ensures KeyName(headers[j]) in ConvertRow(headers, row).values
    ensures ConvertRow(headers, row).values[KeyName(headers[j])] == MapWith(CellValue, headers, row)[j]
  {
    var keys := ColumnKeys(headers[..|row|]);
    var cells := Zip(keys, MapWith(CellValue, headers, row));
    forall j' | j <= j' < |row| ensures cells[j'].0 == KeyName(headers[j']) {
      ZipAt(keys, MapWith(CellValue, headers, row), j');
    }
    ZipAt(keys, MapWith(CellValue, headers, row), j);
    AssembleLastWins(cells, j);
  }

  /** Each key ends up holding the cell of the last column that has it. */
  lemma ConvertRowLastWins(headers: seq<string>, row: seq<string>, j: nat)
    requires |row| <= |headers| && j < |row|
    requires forall j' :: j < j' < |row| ==> KeyName(headers[j']) != KeyName(headers[j])
    ensures KeyName(headers[j]) in ConvertRow(headers, row).values
    ensures ConvertRow(headers, row).values[KeyName(headers[j])] == CellValue(headers[j], row[j])
  {
    RowLastWins(headers, row, j);
  }

  /** Distinct column keys: no later column shares column `j`'s key. */
  lemma DistinctColumnsLater(headers: seq<string>, row: seq<string>, j: nat)
    requires |row| <= |headers| && j < |row|
    requires Distinct(ColumnKeys(headers[..|row|]))
    ensures forall j' :: j < j' < |row| ==> KeyName(headers[j']) != KeyName(headers[j])
  {
    var keys := ColumnKeys(headers[..|row|]);
    forall j' | j < j' < |row| ensures KeyName(headers[j']) != KeyName(headers[j]) {
      assert keys[j] != keys[j'];
    }
  }

  /** When the columns a row reaches have distinct keys, the record lists
      them in column order, each holding its own cell. */
  lemma ConvertRowDistinct(headers: seq<string>, row: seq<string>)
    requires |row| <= |headers|
    requires Distinct(ColumnKeys(headers[..|row|]))
    ensures ConvertRow(headers, row).order == ColumnKeys(headers[..|row|])
    ensures forall j :: 0 <= j < |row| ==>
      KeyName(headers[j]) in ConvertRow(headers, row).values &&
      ConvertRow(headers, row).values[KeyName(headers[j])] == CellValue(headers[j], row[j])
  {
    AssembleDistinct(Zip(ColumnKeys(headers[..|row|]), MapWith(CellValue, headers, row)));
    forall j | 0 <= j < |row|
      ensures KeyName(headers[j]) in ConvertRow(headers, row).values
      ensures ConvertRow(headers, row).values[KeyName(headers[j])] == CellValue(headers[j], row[j])
    {
      DistinctColumnsLater(headers, row, j);
      ConvertRowLastWins(headers, row, j);
    }
  }

  /* ---------------- The sheet ---------------- */

  /** Python's `IndexError` from `headers[j]`: data row `row` has a cell
      in column `column`, past the last header. */
  datatype GenError = IndexError(row: nat, column: nat)

  /** The records of data rows that all fit under the headers, in order. */
  function ConvertRows(headers: seq<string>, rows: seq<seq<string>>): (r: seq<Dict>)
    requires forall i :: 0 <= i < |rows| ==> |rows[i]| <= |headers|
    ensures |r| == |rows|
  {
    if |rows| == 0 then [] else [ConvertRow(headers, rows[0])] + ConvertRows(headers, rows[1..])
  }

  /** Record `k` is the record of row `k`. */
  lemma {:induction false} ConvertRowsAt(headers: seq<string>, rows: seq<seq<string>>, k: nat)
    requires forall i :: 0 <= i < |rows| ==> |rows[i]| <= |headers|
    requires k < |rows|
    ensures ConvertRows(headers, rows)[k] == ConvertRow(headers, rows[k])
    decreases k
  {
    if k > 0 {
      ConvertRowsAt(headers, rows[1..], k - 1);
    }
  }

  /** The records of a whole sheet. Row 0 is the header row (its cells
      stripped), row 1 a description row that is skipped, every further
      row gives one record, in order. A data row with more cells than the
      header row stops the conversion with an error and no records. */
  method GenerateEntries(rows: seq<seq<string>>) returns (r: Result<seq<Dict>, GenError>)
    ensures r.Failure? <==> exists i :: 2 <= i < |rows| && |rows[i]| > |rows[0]|
    ensures r.Failure? ==>
      && 2 <= r.error.row < |rows|
      && |rows[r.error.row]| > |rows[0]|
      && r.error.column == |rows[0]|
      && forall i :: 2 <= i < r.error.row ==> |rows[i]| <= |rows[0]|
    ensures r.Success? ==> forall i :: 2 <= i < |rows| ==> |rows[i]| <= |rows[0]|
    ensures r.Success? ==> r.value == if |rows| <= 2 then [] else ConvertRows(StripAll(rows[0]), rows[2..])
  {
    if |rows| <= 2 {
      return Success([]);
    }
    var headers := StripAll(rows[0]);
    var i := 2;
    while i < |rows|
      invariant 2 <= i <= |rows|
      invariant forall i' :: 2 <= i' < i ==> |rows[i']| <= |rows[0]|
    {
      if |rows[i]| > |headers| {
        return Failure(IndexError(i, |headers|));
      }
      i := i + 1;
    }
    return Success(ConvertRows(headers, rows[2..]));
  }
}
