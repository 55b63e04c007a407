/** The text handling of one Entrez fetch reply (`rettype="acc"`,
    `retmode="text"`): cleaning the raw lines, checking that the reply has the
    two marker lines, and pulling the abstract line and the accession code out
    of it. */
module EntrezResponse {

  import opened Wrappers
  import opened Text

  /** Prefix of the abstract line. */
  const AbstractMarker: string := "1. "
  /** Prefix of the accession line. */
  const AccessionMarker: string := "BioProject Accession: "
  /** The separator the accession line is split on. */
  const FieldSeparator: string := ": "
  /** A raw line holding nothing but a line feed. */
  const BlankLine: string := "\n"

  /** Some line of `lines` starts with `prefix`. */
  predicate HasLineWith(lines: seq<string>, prefix: string) {
    exists i :: 0 <= i < |lines| && StartsWith(lines[i], prefix)
  }

  /** `any([line.startswith(prefix) for line in lines])`, scanning from the front. */
  function AnyStartsWith(lines: seq<string>, prefix: string): (b: bool)
    ensures b <==> HasLineWith(lines, prefix)
  {
    if |lines| == 0 then false
    else if StartsWith(lines[0], prefix) then true
    else
      var b := AnyStartsWith(lines[1..], prefix);
      assert HasLineWith(lines, prefix) ==> HasLineWith(lines[1..], prefix) by {
        if HasLineWith(lines, prefix) {
          var i :| 0 <= i < |lines| && StartsWith(lines[i], prefix);
          assert lines[1..][i - 1] == lines[i];
        }
      }
      b
  }

  /** The validator: a cleaned reply is usable iff some line starts with the
      abstract marker and some line starts with the accession marker, wherever
      those lines are and whatever else the reply holds. */
  function CheckProperEntrezResponse(cleaned: seq<string>): (ok: bool)
    ensures ok <==> HasLineWith(cleaned, AbstractMarker) && HasLineWith(cleaned, AccessionMarker)
  {
    if !AnyStartsWith(cleaned, AbstractMarker) then false
    else if !AnyStartsWith(cleaned, AccessionMarker) then false
    else true
  }

  /** The validator looks only at which lines occur: a reply holding every line
      of a valid reply (in any order, with any extra lines) is valid too. */
  lemma ProperResponseMonotone(a: seq<string>, b: seq<string>)
    requires forall i :: 0 <= i < |a| ==> a[i] in b
    requires CheckProperEntrezResponse(a)
    ensures CheckProperEntrezResponse(b)
  {
  }

  /** Reordering the lines of a reply does not change the verdict. */
  lemma ProperResponseOrderInsensitive(a: seq<string>, b: seq<string>)
    requires multiset(a) == multiset(b)
    ensures CheckProperEntrezResponse(a) == CheckProperEntrezResponse(b)
  {
    forall i | 0 <= i < |a| ensures a[i] in b {
      assert a[i] in multiset(a);
    }
    forall j | 0 <= j < |b| ensures b[j] in a {
      assert b[j] in multiset(b);
    }
    if CheckProperEntrezResponse(a) {
      ProperResponseMonotone(a, b);
    }
    if CheckProperEntrezResponse(b) {
      ProperResponseMonotone(b, a);
    }
  }

  /** The accepting examples of the validator's unit tests. */
  lemma ProperResponseAcceptsExamples()
    ensures CheckProperEntrezResponse(["1. test", "BioProject Accession: test"])
    ensures CheckProperEntrezResponse(["1. test", "BioProject Accession: test", "test", "test"])
    ensures CheckProperEntrezResponse(["1. test", "test", "BioProject Accession: test", "test"])
    ensures CheckProperEntrezResponse(["test", "1. test", "test", "BioProject Accession: test"])
    ensures CheckProperEntrezResponse(["test", "test", "1. test", "BioProject Accession: test"])
    ensures CheckProperEntrezResponse(["test", "test", "BioProject Accession: test", "1. test"])
  {
  }

  lemma FirstCharDiffers(s: string, prefix: string)
    requires |s| > 0 && |prefix| > 0 && s[0] != prefix[0]
    ensures !StartsWith(s, prefix)
  {
  }

  /** The rejecting examples of the validator's unit tests: either marker
      missing is enough to reject. */
  lemma ProperResponseRejectsExamples()
    ensures !CheckProperEntrezResponse(["test", "test"])
    ensures !CheckProperEntrezResponse(["1. test", "test"])
    ensures !CheckProperEntrezResponse(["test", "BioProject Accession: test"])
  {
    FirstCharDiffers("test", AbstractMarker);
    FirstCharDiffers("test", AccessionMarker);
    FirstCharDiffers("BioProject Accession: test", AbstractMarker);
    FirstCharDiffers("1. test", AccessionMarker);
  }

  /** How many raw lines survive the blank-line filter. */
  function KeptCount(raw: seq<string>): nat {
    if |raw| == 0 then 0
    else KeptCount(raw[..|raw| - 1]) + (if raw[|raw| - 1] == BlankLine then 0 else 1)
  }

  /** `[line.strip() for line in raw if line != "\n"]`: every raw line other
      than a lone line feed, stripped, in the original order. */
  function Clean(raw: seq<string>): (cleaned: seq<string>)
    ensures |cleaned| == KeptCount(raw)
  {
    if |raw| == 0 then []
    else if raw[|raw| - 1] == BlankLine then Clean(raw[..|raw| - 1])
    else Clean(raw[..|raw| - 1]) + [Strip(raw[|raw| - 1])]
  }

  /** Cleaning drops exactly the lone line feeds and strips every other line:
      raw line `i` lands, stripped, at position `KeptCount(raw[..i])`, and
      those positions fill the cleaned reply. */
  lemma {:induction false} CleanKeepsLines(raw: seq<string>)
    ensures forall i :: 0 <= i < |raw| && raw[i] != BlankLine ==>
      KeptCount(raw[..i]) < |Clean(raw)| && Clean(raw)[KeptCount(raw[..i])] == Strip(raw[i])
    decreases |raw|
  {
    if |raw| > 0 {
      var init := raw[..|raw| - 1];
      CleanKeepsLines(init);
      forall i | 0 <= i < |raw| && raw[i] != BlankLine
        ensures KeptCount(raw[..i]) < |Clean(raw)| && Clean(raw)[KeptCount(raw[..i])] == Strip(raw[i])
      {
        if i < |init| {
          assert init[..i] == raw[..i];
          assert init[i] == raw[i];
        } else {
          assert raw[..i] == init;
        }
      }
    }
  }

  /** `i` is the first line of `lines` that starts with `prefix`. */
  predicate IsFirstWith(lines: seq<string>, prefix: string, i: int) {
    && 0 <= i < |lines|
    && StartsWith(lines[i], prefix)
    && forall j :: 0 <= j < i ==> !StartsWith(lines[j], prefix)
  }

  /** The position of `[line for line in lines if line.startswith(prefix)][0]`;
      None where Python would raise IndexError. */
  function FirstIndexWith(lines: seq<string>, prefix: string): (r: Option<nat>)
    ensures r.Some? ==> IsFirstWith(lines, prefix, r.value)
    ensures r.None? <==> !HasLineWith(lines, prefix)
  {
    if |lines| == 0 then None
    else if StartsWith(lines[0], prefix) then Some(0)
    else match FirstIndexWith(lines[1..], prefix)
      case None =>
        assert forall i :: 0 < i < |lines| ==> lines[i] == lines[1..][i - 1];
        None
      case Some(k) =>
        assert forall i :: 0 < i < |lines| ==> lines[i] == lines[1..][i - 1];
        Some(k + 1)
  }

  /** The accession code an accession line carries: everything after the
      marker up to the next field separator, or to the end of the line. */
  predicate CodeAfterMarker(line: string, code: string) {
    && StartsWith(line, AccessionMarker)
    && var rest := line[|AccessionMarker|..];
    && |code| <= |rest|
    && code == rest[..|code|]
    && (|code| == |rest| || OccursAt(rest, FieldSeparator, |code|))
    && forall i :: 0 <= i < |code| ==> !OccursAt(rest, FieldSeparator, i)
  }

  /** The marker has no field separator before its own trailing one. */
  lemma MarkerSeparatorFirst(line: string)
    requires StartsWith(line, AccessionMarker)
    ensures Find(line, FieldSeparator) == Some(|AccessionMarker| - |FieldSeparator|)
  {
    var k := |AccessionMarker| - |FieldSeparator|;
    assert line[..|AccessionMarker|] == AccessionMarker;
    assert ':' !in AccessionMarker[..k];
    forall i | 0 <= i < k ensures !OccursAt(line, FieldSeparator, i) {
      assert line[i] == AccessionMarker[..k][i];
    }
    assert line[k..k + |FieldSeparator|] == AccessionMarker[k..];
    var f := Find(line, FieldSeparator);
    assert OccursAt(line, FieldSeparator, k);
  }

  /** On an accession line, the second piece of the split on the field
      separator is the code after the marker. */
  lemma SplitAccessionLine(line: string)
    requires StartsWith(line, AccessionMarker)
    ensures |Split(line, FieldSeparator)| >= 2
    ensures CodeAfterMarker(line, Split(line, FieldSeparator)[1])
  {
    var k := |AccessionMarker| - |FieldSeparator|;
    var rest := line[|AccessionMarker|..];
    MarkerSeparatorFirst(line);
    SplitStep(line, FieldSeparator, k);
    assert Split(line, FieldSeparator)[1] == Split(rest, FieldSeparator)[0];
    match Find(rest, FieldSeparator)
    case None =>
    case Some(j) =>
      SplitStep(rest, FieldSeparator, j);
  }

  /** `line.split(": ")[1]`; None where Python would raise IndexError. On an
      accession line it is always defined and yields the code after the marker. */
  function AccessionCode(line: string): (code: Option<string>)
    ensures StartsWith(line, AccessionMarker) ==> code.Some? && CodeAfterMarker(line, code.value)
  {
    var parts := Split(line, FieldSeparator);
    if StartsWith(line, AccessionMarker) then
      SplitAccessionLine(line);
      Some(parts[1])
    else if |parts| < 2 then None
    else Some(parts[1])
  }

  /** An accession line built from a code without a field separator gives that
      code back. */
  lemma AccessionCodeRoundTrip(code: string)
    requires forall i :: 0 <= i < |code| ==> !OccursAt(code, FieldSeparator, i)
    ensures AccessionCode(AccessionMarker + code) == Some(code)
  {
    var line := AccessionMarker + code;
    assert StartsWith(line, AccessionMarker);
    assert line[|AccessionMarker|..] == code;
    var found := AccessionCode(line).value;
    assert found == code[..|found|] == code;
  }

  /** What a valid reply yields: the accession code and the abstract line. */
  datatype Record = Record(accession: string, abstractLine: string)

  /** Extraction from a cleaned reply: None when the validator rejects it,
      otherwise the first abstract line and the code of the first accession
      line. */
  function ParseResponse(cleaned: seq<string>): (r: Option<Record>)
    ensures r.Some? <==> CheckProperEntrezResponse(cleaned)
    ensures r.Some? ==> exists i, j ::
      && IsFirstWith(cleaned, AbstractMarker, i)
      && IsFirstWith(cleaned, AccessionMarker, j)
      && r.value.abstractLine == cleaned[i]
      && CodeAfterMarker(cleaned[j], r.value.accession)
  {
    if CheckProperEntrezResponse(cleaned) then
      var i := FirstIndexWith(cleaned, AbstractMarker).value;
      var j := FirstIndexWith(cleaned, AccessionMarker).value;
      var code := AccessionCode(cleaned[j]).value;
      Some(Record(code, cleaned[i]))
    else
      None
  }
}
