/**
 * The records the loader reads and writes: one mapview input line, one row
 * of the reference marker query, and the rows of the three output files
 * (chromosome mismatches, nomenclature mismatches, coordinates), with the
 * tab-delimited text each of them has on disk.
 */
module Records {
  import opened Strings

  const TAB: char := '\t'

  /** group_label is token 12, the last one read, so a line needs 13 tokens. */
  const MIN_TOKENS: nat := 13

  datatype Option<T> = None | Some(value: T)

  /** The tokens of a mapview line that the loader reads, by their input names. */
  datatype Feature = Feature(
    taxId: string,        // token 0
    chromosome: string,   // token 1
    chrStart: string,     // token 2
    chrStop: string,      // token 3
    chrOrient: string,    // token 4
    featureName: string,  // token 9
    featureId: string,    // token 10, "GeneID:<EntrezGene id>"
    featureType: string,  // token 11
    groupLabel: string)   // token 12

  /** One row of the reference query: an EntrezGene id with the MGI symbol and chromosome. */
  datatype MarkerRow = MarkerRow(accId: string, symbol: string, chromosome: string)

  /** A row of the chromosome mismatch report. */
  datatype ChrMismatchRow = ChrMismatchRow(id: string, chromosome: string, mgiChromosome: string)

  /** A row of the nomenclature mismatch report. */
  datatype NomenMismatchRow = NomenMismatchRow(id: string, featureName: string, mgiSymbol: string)

  /** A row of the human coordinate file. */
  datatype CoordRow = CoordRow(id: string, chromosome: string, chrStart: string, chrStop: string, chrOrient: string)

  predicate TabFree(s: string)
  {
    TAB !in s
  }

  /**
   * The tokens of one line as read: the last character dropped, the rest
   * split on tabs. There is always at least one token, none holds a tab,
   * and joined with tabs they give back the line without its last character.
   */
  function Tokens(line: string): (t: seq<string>)
    ensures |t| > 0 && FreeOf(t, TAB)
    ensures Join(t, TAB) == DropLast(line)
  {
    JoinSplit(DropLast(line), TAB);
    Split(DropLast(line), TAB)
  }

  /** The feature of one line, or None when the line has too few tokens to be read. */
  function Parse(line: string): (r: Option<Feature>)
    ensures r.None? <==> |Tokens(line)| < MIN_TOKENS
    ensures r.Some? ==> var f := r.value;
      TabFree(f.taxId) && TabFree(f.chromosome) && TabFree(f.chrStart) && TabFree(f.chrStop) &&
      TabFree(f.chrOrient) && TabFree(f.featureName) && TabFree(f.featureId) &&
      TabFree(f.featureType) && TabFree(f.groupLabel)
  {
    var t := Tokens(line);
    if |t| < MIN_TOKENS then None
    else Some(Feature(t[0], t[1], t[2], t[3], t[4], t[9], t[10], t[11], t[12]))
  }

  /**
   * A mapview line carrying `f`: the four tokens the loader skips (5 to 8)
   * come from `skipped`, any further tokens from `trailing`, and the line
   * ends in a newline.
   */
  function InputLine(f: Feature, skipped: seq<string>, trailing: seq<string>): string
    requires |skipped| == 4
  {
    Join([f.taxId, f.chromosome, f.chrStart, f.chrStop, f.chrOrient] + skipped
         + [f.featureName, f.featureId, f.featureType, f.groupLabel] + trailing, TAB) + "\n"
  }

  /** Reading a well-formed line gives back the feature it was written from. */
  lemma ParseInputLine(f: Feature, skipped: seq<string>, trailing: seq<string>)
    requires |skipped| == 4
    requires TabFree(f.taxId) && TabFree(f.chromosome) && TabFree(f.chrStart) && TabFree(f.chrStop)
    requires TabFree(f.chrOrient) && TabFree(f.featureName) && TabFree(f.featureId)
    requires TabFree(f.featureType) && TabFree(f.groupLabel)
    requires forall i :: 0 <= i < |skipped| ==> TabFree(skipped[i])
    requires forall i :: 0 <= i < |trailing| ==> TabFree(trailing[i])
    ensures Parse(InputLine(f, skipped, trailing)) == Some(f)
  {
    var fields := [f.taxId, f.chromosome, f.chrStart, f.chrStop, f.chrOrient] + skipped
                  + [f.featureName, f.featureId, f.featureType, f.groupLabel] + trailing;
    var text := Join(fields, TAB);
    assert DropLast(text + "\n") == text;
    assert FreeOf(fields, TAB) by {
      forall i | 0 <= i < |fields| ensures TAB !in fields[i] {
        if i >= 13 {
          assert fields[i] == trailing[i - 13];
        } else if 5 <= i < 9 {
          assert fields[i] == skipped[i - 5];
        }
      }
    }
    SplitJoin(fields, TAB);
  }

  /**
   * Conversely, every newline-terminated line the loader can read is the
   * line built from the feature it reads, the tokens it skips and any
   * trailing tokens: reading loses nothing but the tokens it does not use.
   */
  lemma ParsedLineIsInputLine(line: string)
    requires |line| > 0 && line[|line| - 1] == '\n' && Parse(line).Some?
    ensures var t := Tokens(line);
      line == InputLine(Parse(line).value, t[5..9], t[13..])
  {
    var t := Tokens(line);
    var f := Parse(line).value;
    assert [f.taxId, f.chromosome, f.chrStart, f.chrStop, f.chrOrient] + t[5..9]
           + [f.featureName, f.featureId, f.featureType, f.groupLabel] + t[13..] == t;
  }

  /**
   * A line that lacks its final newline (the last line of a file may) is
   * read with the last character of its last token cut off.
   */
  lemma ParseUnterminatedLine(f: Feature, skipped: seq<string>)
    requires |skipped| == 4
    requires TabFree(f.taxId) && TabFree(f.chromosome) && TabFree(f.chrStart) && TabFree(f.chrStop)
    requires TabFree(f.chrOrient) && TabFree(f.featureName) && TabFree(f.featureId)
    requires TabFree(f.featureType) && TabFree(f.groupLabel) && |f.groupLabel| > 0
    requires forall i :: 0 <= i < |skipped| ==> TabFree(skipped[i])
    ensures Parse(DropLast(InputLine(f, skipped, []))) == Some(f.(groupLabel := DropLast(f.groupLabel)))
  {
    var g := f.(groupLabel := DropLast(f.groupLabel));
    var fields := [f.taxId, f.chromosome, f.chrStart, f.chrStop, f.chrOrient] + skipped
                  + [f.featureName, f.featureId, f.featureType, f.groupLabel];
    var cut := [g.taxId, g.chromosome, g.chrStart, g.chrStop, g.chrOrient] + skipped
               + [g.featureName, g.featureId, g.featureType, g.groupLabel];
    assert fields + [] == fields;
    assert cut + [] == cut;
    JoinDropLast(fields, TAB);
    assert fields[..|fields| - 1] + [DropLast(fields[|fields| - 1])] == cut;
    assert DropLast(InputLine(f, skipped, [])) == Join(fields, TAB);
    assert DropLast(InputLine(g, skipped, [])) == Join(cut, TAB);
    assert Tokens(DropLast(InputLine(f, skipped, []))) == Tokens(InputLine(g, skipped, []));
    assert TabFree(g.groupLabel) by {
      assert f.groupLabel == g.groupLabel + [f.groupLabel[|f.groupLabel| - 1]];
    }
    ParseInputLine(g, skipped, []);
  }

  /**
   * The text the chromosome mismatch report receives for one row: a
   * newline-terminated line that, when its fields hold no tab, splits back
   * into those three fields.
   */
  function ChrMismatchLine(r: ChrMismatchRow): (line: string)
    ensures |line| > 0 && line[|line| - 1] == '\n'
    ensures TabFree(r.id) && TabFree(r.chromosome) && TabFree(r.mgiChromosome) ==>
      Tokens(line) == [r.id, r.chromosome, r.mgiChromosome]
  {
    if TabFree(r.id) && TabFree(r.chromosome) && TabFree(r.mgiChromosome) then
      ThreeFieldsRoundTrip(r.id, r.chromosome, r.mgiChromosome);
      r.id + "\t" + r.chromosome + "\t" + r.mgiChromosome + "\n"
    else
      r.id + "\t" + r.chromosome + "\t" + r.mgiChromosome + "\n"
  }

  /**
   * The text the nomenclature mismatch report receives for one row, read
   * back the same way.
   */
  function NomenMismatchLine(r: NomenMismatchRow): (line: string)
    ensures |line| > 0 && line[|line| - 1] == '\n'
    ensures TabFree(r.id) && TabFree(r.featureName) && TabFree(r.mgiSymbol) ==>
      Tokens(line) == [r.id, r.featureName, r.mgiSymbol]
  {
    if TabFree(r.id) && TabFree(r.featureName) && TabFree(r.mgiSymbol) then
      ThreeFieldsRoundTrip(r.id, r.featureName, r.mgiSymbol);
      r.id + "\t" + r.featureName + "\t" + r.mgiSymbol + "\n"
    else
      r.id + "\t" + r.featureName + "\t" + r.mgiSymbol + "\n"
  }

  /**
   * The text the coordinate file receives for one row, written there in five
   * pieces. With tab-free fields it splits back into id, chromosome, start,
   * stop and strand.
   */
  function CoordLine(r: CoordRow): (line: string)
    ensures |line| > 0 && line[|line| - 1] == '\n'
    ensures TabFree(r.id) && TabFree(r.chromosome) && TabFree(r.chrStart) &&
            TabFree(r.chrStop) && TabFree(r.chrOrient) ==>
      Tokens(line) == [r.id, r.chromosome, r.chrStart, r.chrStop, r.chrOrient]
  {
    var line := (r.id + "\t") + (r.chromosome + "\t") + (r.chrStart + "\t") + (r.chrStop + "\t") + (r.chrOrient + "\n");
    if TabFree(r.id) && TabFree(r.chromosome) && TabFree(r.chrStart) &&
       TabFree(r.chrStop) && TabFree(r.chrOrient) then
      FiveFieldsRoundTrip(r.id, r.chromosome, r.chrStart, r.chrStop, r.chrOrient);
      line
    else
      line
  }

  /** Three tab-free fields, tab-joined and newline-terminated, are read back field for field. */
  lemma ThreeFieldsRoundTrip(a: string, b: string, c: string)
    requires TabFree(a) && TabFree(b) && TabFree(c)
    ensures Tokens(a + "\t" + b + "\t" + c + "\n") == [a, b, c]
  {
    var fields := [a, b, c];
    assert Join(fields, TAB) == a + "\t" + b + "\t" + c by {
      assert fields[1..] == [b, c] && [b, c][1..] == [c];
      assert Join([c], TAB) == c;
      assert Join([b, c], TAB) == b + "\t" + c;
    }
    assert DropLast(a + "\t" + b + "\t" + c + "\n") == a + "\t" + b + "\t" + c;
    SplitJoin(fields, TAB);
  }

  /** The same for five fields, written in five pieces as the coordinate file receives them. */
  lemma FiveFieldsRoundTrip(a: string, b: string, c: string, d: string, e: string)
    requires TabFree(a) && TabFree(b) && TabFree(c) && TabFree(d) && TabFree(e)
    ensures Tokens((a + "\t") + (b + "\t") + (c + "\t") + (d + "\t") + (e + "\n")) == [a, b, c, d, e]
  {
    var fields := [a, b, c, d, e];
    var text := a + "\t" + b + "\t" + c + "\t" + d + "\t" + e;
    assert Join(fields, TAB) == text by {
      var f4 := [e];
      var f3 := [d, e];
      var f2 := [c, d, e];
      var f1 := [b, c, d, e];
      assert fields[1..] == f1 && f1[1..] == f2 && f2[1..] == f3 && f3[1..] == f4;
      assert Join(f4, TAB) == e;
      assert Join(f3, TAB) == d + "\t" + e;
      assert Join(f2, TAB) == c + "\t" + d + "\t" + e;
      assert Join(f1, TAB) == b + "\t" + c + "\t" + d + "\t" + e;
    }
    assert (a + "\t") + (b + "\t") + (c + "\t") + (d + "\t") + (e + "\n") == text + "\n";
    assert DropLast(text + "\n") == text;
    SplitJoin(fields, TAB);
  }
}
