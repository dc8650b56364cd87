/** Splitting a CSV line into fields, as csv2nds/main.cpp does with the regular
    expression `,(?=(?:[^"]*"[^"]*")*(?![^"]*"))` and a
    `boost::sregex_token_iterator` in field-splitting mode (submatch -1).

    The expression matches a comma only when the rest of the line holds an
    even number of double quotes, i.e. when the comma is outside a quoted
    section. The quotes themselves stay in the fields. */
module CsvFields {

  /** Number of `"` characters in `s`. */
  function QuoteCount(s: string): (n: nat)
    ensures n <= |s|
  {
    if s == [] then 0 else (if s[0] == '"' then 1 else 0) + QuoteCount(s[1..])
  }

  /** The regular expression matches at position i: a comma followed by an even
      number of quotes up to the end of the line. */
  predicate IsSeparator(line: string, i: int)
  {
    0 <= i < |line| && line[i] == ',' && QuoteCount(line[i + 1..]) % 2 == 0
  }

  /** The token iterator: scans from `i` for the next match, emitting the text
      since `start` at each. The text after the last match is emitted only
      when it is not empty. */
  function SplitFrom(line: string, start: nat, i: nat): seq<string>
    requires start <= i <= |line|
    decreases |line| - i
  {
    if i == |line| then
      (if start < |line| then [line[start..]] else [])
    else if IsSeparator(line, i) then
      [line[start..i]] + SplitFrom(line, i + 1, i + 1)
    else
      SplitFrom(line, start, i + 1)
  }

  /** `std::vector<std::string> unformatted_data(ti, ti_end)` of a line. */
  function Split(line: string): seq<string>
  {
    SplitFrom(line, 0, 0)
  }

  /** The positions from `from` on where the expression matches, in increasing order. */
  function Cuts(line: string, from: nat): (cs: seq<nat>)
    requires from <= |line|
    ensures forall k :: 0 <= k < |cs| ==> from <= cs[k] < |line| && IsSeparator(line, cs[k])
    ensures forall i :: from <= i < |line| && IsSeparator(line, i) ==> i in cs
    ensures Ascends(line, from, cs)
    decreases |line| - from
  {
    if from == |line| then []
    else if IsSeparator(line, from) then [from] + Cuts(line, from + 1)
    else Cuts(line, from + 1)
  }

  /** `cs` are positions of `line`, from `start` on, in increasing order. */
  predicate Ascends(line: string, start: nat, cs: seq<nat>)
    decreases |cs|
  {
    cs == [] || (start <= cs[0] < |line| && Ascends(line, cs[0] + 1, cs[1..]))
  }

  /** Every position in `cs` holds a comma. */
  predicate AtCommas(line: string, cs: seq<nat>)
  {
    forall k :: 0 <= k < |cs| ==> cs[k] < |line| && line[cs[k]] == ','
  }

  /** Reference definition of the fields: the pieces of `line` from `start`
      that lie between consecutive cut positions `cs`, and after the last. */
  function Pieces(line: string, start: nat, cs: seq<nat>): (ps: seq<string>)
    requires start <= |line| && Ascends(line, start, cs)
    ensures |ps| == |cs| + 1
    decreases |cs|
  {
    if cs == [] then [line[start..]]
    else [line[start..cs[0]]] + Pieces(line, cs[0] + 1, cs[1..])
  }

  /** Drops a final empty piece, as the token iterator does. */
  function DropTrailingEmpty(ps: seq<string>): (r: seq<string>)
    ensures r == ps || (ps != [] && ps[|ps| - 1] == "" && r == ps[..|ps| - 1])
    ensures ps != [] && ps[|ps| - 1] == "" ==> r == ps[..|ps| - 1]
  {
    if ps != [] && ps[|ps| - 1] == "" then ps[..|ps| - 1] else ps
  }

  /** The fields joined back with commas. */
  function Join(fields: seq<string>): string
  {
    if fields == [] then ""
    else if |fields| == 1 then fields[0]
    else fields[0] + "," + Join(fields[1..])
  }

  /** The splitter from a position with no match between `start` and `i`
      yields the pieces between the matches from `i` on. */
  lemma {:induction false} SplitFromPieces(line: string, start: nat, i: nat)
    requires start <= i <= |line|
    requires forall j :: start <= j < i ==> !IsSeparator(line, j)
    ensures SplitFrom(line, start, i) == DropTrailingEmpty(Pieces(line, start, Cuts(line, i)))
    decreases |line| - i
  {
    if i == |line| {
    } else if IsSeparator(line, i) {
      SplitFromPieces(line, i + 1, i + 1);
      SplitAtCut(line, start, i);
      PiecesAtCut(line, start, i);
    } else {
      SplitFromPieces(line, start, i + 1);
      assert Cuts(line, i) == Cuts(line, i + 1);
    }
  }

  /** At a match, the splitter emits the piece before it and splits the rest. */
  lemma SplitAtCut(line: string, start: nat, i: nat)
    requires start <= i < |line| && IsSeparator(line, i)
    ensures SplitFrom(line, start, i) == [line[start..i]] + SplitFrom(line, i + 1, i + 1)
  {
  }

  /** At a match, the first piece ends and the rest are the pieces after it. */
  lemma PiecesAtCut(line: string, start: nat, i: nat)
    requires start <= i < |line| && IsSeparator(line, i)
    ensures DropTrailingEmpty(Pieces(line, start, Cuts(line, i)))
            == [line[start..i]] + DropTrailingEmpty(Pieces(line, i + 1, Cuts(line, i + 1)))
  {
    var rest := Cuts(line, i + 1);
    CutsAtSeparator(line, i);
    PiecesCons(line, start, i, rest);
    DropTrailingEmptyCons(line[start..i], Pieces(line, i + 1, rest));
  }

  /** A match is the first cut position from itself on. */
  lemma CutsAtSeparator(line: string, i: nat)
    requires i < |line| && IsSeparator(line, i)
    ensures Cuts(line, i) == [i] + Cuts(line, i + 1)
  {
  }

  /** The pieces from `start` with a first cut at `c`. */
  lemma PiecesCons(line: string, start: nat, c: nat, rest: seq<nat>)
    requires start <= c < |line| && Ascends(line, c + 1, rest)
    ensures Ascends(line, start, [c] + rest)
    ensures Pieces(line, start, [c] + rest) == [line[start..c]] + Pieces(line, c + 1, rest)
  {
    assert ([c] + rest)[1..] == rest;
  }

  /** Dropping a final empty piece does not touch the first. */
  lemma DropTrailingEmptyCons(p: string, ps: seq<string>)
    requires ps != []
    ensures DropTrailingEmpty([p] + ps) == [p] + DropTrailingEmpty(ps)
  {
    assert ([p] + ps)[..|ps|] == [p] + ps[..|ps| - 1];
  }

  /** Joining the pieces between commas gives back the text they came from. */
  lemma {:induction false} JoinPieces(line: string, start: nat, cs: seq<nat>)
    requires start <= |line| && Ascends(line, start, cs) && AtCommas(line, cs)
    ensures Join(Pieces(line, start, cs)) == line[start..]
    decreases |cs|
  {
    if cs != [] {
      var c := cs[0];
      JoinPieces(line, c + 1, cs[1..]);
      var ps := Pieces(line, c + 1, cs[1..]);
      assert Pieces(line, start, cs) == [line[start..c]] + ps;
      JoinCons(line[start..c], ps);
      SliceAtComma(line, start, c);
    }
  }

  /** The text from `start` is the text up to a comma, the comma, and the rest. */
  lemma SliceAtComma(line: string, start: nat, c: nat)
    requires start <= c < |line| && line[c] == ','
    ensures line[start..] == line[start..c] + "," + line[c + 1..]
  {
  }

  /** Joining a first field in front of the others puts a comma between. */
  lemma JoinCons(field: string, fields: seq<string>)
    requires fields != []
    ensures Join([field] + fields) == field + "," + Join(fields)
  {
    assert ([field] + fields)[1..] == fields;
  }

  /** Splitting loses nothing but a final separator: joining the fields with
      commas restores the line, without its last comma exactly when the line
      ends with one. */
  lemma SplitJoin(line: string)
    ensures Join(Split(line)) == if |line| > 0 && line[|line| - 1] == ',' then line[..|line| - 1] else line
  {
    if |line| > 0 && line[|line| - 1] == ',' {
      SplitJoinFinalComma(line);
    } else {
      SplitJoinNoFinalComma(line);
    }
  }

  /** A final comma is the one thing splitting loses. */
  lemma SplitJoinFinalComma(line: string)
    requires |line| > 0 && line[|line| - 1] == ','
    ensures Join(Split(line)) == line[..|line| - 1]
  {
    var cs := Cuts(line, 0);
    SplitIsPiecesBetweenSeparators(line);
    JoinPieces(line, 0, cs);
    var ps := Pieces(line, 0, cs);
    assert line[|line|..] == [];
    CutsEndAtFinalComma(line, 0);
    PiecesLastFrom(line, 0, cs);
    JoinDropLast(ps);
    assert Split(line) == ps[..|ps| - 1];
    assert line == line[..|line| - 1] + ",";
  }

  /** Without a final comma, splitting loses nothing. */
  lemma SplitJoinNoFinalComma(line: string)
    requires !(|line| > 0 && line[|line| - 1] == ',')
    ensures Join(Split(line)) == line
  {
    var cs := Cuts(line, 0);
    SplitIsPiecesBetweenSeparators(line);
    JoinPieces(line, 0, cs);
    if cs != [] {
      PiecesLast(line, 0, cs);
    } else {
      assert line[0..] == line;
    }
  }

  /** The fields of a line are exactly the pieces between its separators, a
      final empty piece dropped; with `Cuts` this says that a comma splits the
      line exactly when an even number of quotes follows it. */
  lemma SplitIsPiecesBetweenSeparators(line: string)
    ensures Split(line) == DropTrailingEmpty(Pieces(line, 0, Cuts(line, 0)))
  {
    SplitFromPieces(line, 0, 0);
  }

  /** A comma that ends the line is the last cut position. */
  lemma {:induction false} CutsEndAtFinalComma(line: string, from: nat)
    requires from < |line| && IsSeparator(line, |line| - 1)
    ensures var cs := Cuts(line, from); cs != [] && cs[|cs| - 1] == |line| - 1
    decreases |line| - from
  {
    if from < |line| - 1 {
      CutsEndAtFinalComma(line, from + 1);
    }
  }

  /** The last piece is the text after the last cut position. */
  lemma {:induction false} PiecesLastFrom(line: string, start: nat, cs: seq<nat>)
    requires start <= |line| && Ascends(line, start, cs) && cs != []
    ensures cs[|cs| - 1] < |line| && Pieces(line, start, cs)[|cs|] == line[cs[|cs| - 1] + 1..]
    decreases |cs|
  {
    if |cs| > 1 {
      PiecesLastFrom(line, cs[0] + 1, cs[1..]);
    }
  }

  /** Joining all but an empty last field drops a final comma. */
  lemma {:induction false} JoinDropLast(fields: seq<string>)
    requires |fields| > 1 && fields[|fields| - 1] == ""
    ensures Join(fields) == Join(fields[..|fields| - 1]) + ","
    decreases |fields|
  {
    if |fields| == 2 {
      assert fields[..1] == [fields[0]];
    } else {
      JoinDropLast(fields[1..]);
      assert fields[1..][..|fields| - 2] == fields[..|fields| - 1][1..];
    }
  }

  /** An empty last piece means the line ends with a cut position's comma. */
  lemma {:induction false} PiecesLast(line: string, start: nat, cs: seq<nat>)
    requires start <= |line| && Ascends(line, start, cs) && AtCommas(line, cs)
    requires cs != []
    ensures var ps := Pieces(line, start, cs);
            ps[|ps| - 1] == "" ==> line[|line| - 1] == ','
    decreases |cs|
  {
    if |cs| > 1 {
      PiecesLast(line, cs[0] + 1, cs[1..]);
    }
  }

  /** A line without quotes splits at every comma. */
  lemma UnquotedCommaSplits(line: string, i: int)
    requires QuoteCount(line) == 0 && 0 <= i < |line| && line[i] == ','
    ensures IsSeparator(line, i)
  {
    QuoteCountSplit(line, i + 1);
  }

  /** Quotes of a line are those before a position plus those after it. */
  lemma {:induction false} QuoteCountSplit(s: string, k: nat)
    requires k <= |s|
    ensures QuoteCount(s) == QuoteCount(s[..k]) + QuoteCount(s[k..])
    decreases k
  {
    if k > 0 {
      QuoteCountSplit(s[1..], k - 1);
      assert s[1..][..k - 1] == s[..k][1..];
      assert s[1..][k - 1..] == s[k..];
    }
  }
}
