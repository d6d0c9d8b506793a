// The version bump of `publish`, the same in both generations (`replace_version` in
// workspace/commands/publish.py and src/workspace/commands/publish.py): the chosen
// part of the dotted version is incremented and every later part becomes "0".
module VersionBump {
  import opened Wrappers
  import opened Text

  /** An item of `version_parts`: a piece of the version text, or the integer 0 the
      padding loop appends as written. */
  datatype Part = Piece(text: string) | Zero

  /** The part to bump: 0 for major, 1 for minor, 2 for patch. */
  function BumpIndex(minor: bool, major: bool): (i: nat)
    ensures i <= 2
    ensures i == 0 <==> major
    ensures i == 1 <==> !major && minor
  {
    if major then 0 else if minor then 1 else 2
  }

  function Max(a: nat, b: nat): nat { if a < b then b else a }

  /** `int(part)`: the padding int is 0, a piece must be decimal digits. */
  function IntValue(p: Part): Option<nat>
  {
    match p
    case Zero => Some(0)
    case Piece(s) => ParseNat(s)
  }

  /** `'.'.join(version_parts)`: TypeError when an int is left in the list. */
  function JoinParts(ps: seq<Part>): (r: Result<string>)
    ensures r.Ok? <==> forall j :: 0 <= j < |ps| ==> ps[j].Piece?
  {
    if exists j :: 0 <= j < |ps| && ps[j].Zero? then Err("TypeError")
    else Ok(Join(".", seq(|ps|, j requires 0 <= j < |ps| => ps[j].text)))
  }

  // ---------------------------------------------------------------------------
  // As written: the list is padded with the integer 0

  /** `version_parts` after the padding and zeroing loops, as written. */
  function PaddedAsWritten(parts: seq<string>, i: nat): (r: seq<Part>)
    ensures |r| == Max(|parts|, i + 1)
  {
    seq(Max(|parts|, i + 1), j requires 0 <= j => if j < |parts| then (if j > i then Piece("0") else Piece(parts[j])) else Zero)
  }

  function BumpAsWritten(version: string, i: nat): Result<string>
  {
    var ps := PaddedAsWritten(Split(version, "."), i);
    match IntValue(ps[i])
    case None => Err("ValueError")
    case Some(v) => JoinParts(ps[i := Piece(NatToString(v + 1))])
  }

  /** `replace_version` on the version text of the match, as written. */
  method ReplaceVersionAsWritten(version: string, i: nat) returns (r: Result<string>)
    ensures r == BumpAsWritten(version, i)
  {
    var split := Split(version, ".");
    var parts: seq<Part> := seq(|split|, j requires 0 <= j < |split| => Piece(split[j]));
    while |parts| < i + 1
      invariant |split| <= |parts| <= Max(|split|, i + 1)
      invariant forall j :: 0 <= j < |split| ==> parts[j] == Piece(split[j])
      invariant forall j :: |split| <= j < |parts| ==> parts[j] == Zero
      decreases i + 1 - |parts|
    {
      parts := parts + [Zero];
    }
    var j := i + 1;
    while j < |parts|
      invariant i + 1 <= j <= Max(j, |parts|) && |parts| == Max(|split|, i + 1)
      invariant forall k :: 0 <= k < |parts| ==> parts[k] == if k < j then PaddedAsWritten(split, i)[k] else Piece(split[k])
      decreases |parts| - j
    {
      parts := parts[j := Piece("0")];
      j := j + 1;
    }
    assert parts == PaddedAsWritten(split, i);
    match IntValue(parts[i])
    case None => r := Err("ValueError");
    case Some(v) =>
      parts := parts[i := Piece(NatToString(v + 1))];
      r := JoinParts(parts);
  }

  // ---------------------------------------------------------------------------
  // Corrected: the list is padded with the string "0"

  /** The parts once padded with "0" and zeroed after the bumped one. */
  function Padded(parts: seq<string>, i: nat): (r: seq<string>)
    ensures |r| == Max(|parts|, i + 1)
  {
    seq(Max(|parts|, i + 1), j requires 0 <= j => if j < |parts| && j <= i then parts[j] else "0")
  }

  /** The parts with the bumped one replaced by `str(v + 1)`. */
  function BumpedParts(parts: seq<string>, i: nat, v: nat): (r: seq<string>)
    ensures |r| == Max(|parts|, i + 1)
  {
    Padded(parts, i)[i := NatToString(v + 1)]
  }

  function Bump(version: string, i: nat): Result<string>
  {
    var parts := Split(version, ".");
    match ParseNat(Padded(parts, i)[i])
    case None => Err("ValueError")
    case Some(v) => Ok(Join(".", BumpedParts(parts, i, v)))
  }

  /** `replace_version` with string padding. */
  method ReplaceVersion(version: string, i: nat) returns (r: Result<string>)
    ensures r == Bump(version, i)
  {
    var parts := Split(version, ".");
    while |parts| < i + 1
      invariant |Split(version, ".")| <= |parts| <= Max(|Split(version, ".")|, i + 1)
      invariant forall j :: 0 <= j < |Split(version, ".")| ==> parts[j] == Split(version, ".")[j]
      invariant forall j :: |Split(version, ".")| <= j < |parts| ==> parts[j] == "0"
      decreases i + 1 - |parts|
    {
      parts := parts + ["0"];
    }
    var j := i + 1;
    while j < |parts|
      invariant i + 1 <= j && |parts| == Max(|Split(version, ".")|, i + 1)
      invariant forall k :: 0 <= k < |parts| ==> parts[k] == if k < j then Padded(Split(version, "."), i)[k] else Split(version, ".")[k]
      decreases |parts| - j
    {
      parts := parts[j := "0"];
      j := j + 1;
    }
    assert parts == Padded(Split(version, "."), i);
    match ParseNat(parts[i])
    case None => r := Err("ValueError");
    case Some(v) =>
      parts := parts[i := NatToString(v + 1)];
      assert parts == BumpedParts(Split(version, "."), i, v);
      r := Ok(Join(".", parts));
  }

  // ---------------------------------------------------------------------------
  // What the bump does

  /** The parts of the bumped version: those before the bumped one kept (a missing one
      is "0"), the bumped one one more than it was, every later one "0". */
  predicate BumpedFrom(nps: seq<string>, parts: seq<string>, i: nat)
  {
    && |nps| == Max(|parts|, i + 1)
    && (forall j :: 0 <= j < i ==> nps[j] == if j < |parts| then parts[j] else "0")
    && (forall j :: i < j < |nps| ==> nps[j] == "0")
    && ParseNat(nps[i]).Some?
    && (i < |parts| ==> ParseNat(parts[i]).Some? && ParseNat(nps[i]).value == ParseNat(parts[i]).value + 1)
    && (i >= |parts| ==> ParseNat(nps[i]).value == 1)
  }

  /** The bump succeeds exactly when the bumped part is missing or decimal digits;
      then splitting the new version at "." gives the bumped parts. */
  lemma BumpMeaning(version: string, i: nat)
    ensures var parts := Split(version, ".");
      Bump(version, i).Ok? <==> (i < |parts| ==> AllDigits(parts[i]))
    ensures Bump(version, i).Ok? ==> BumpedFrom(Split(Bump(version, i).value, "."), Split(version, "."), i)
  {
    var parts := Split(version, ".");
    BumpablePart(parts, i);
    if ParseNat(Padded(parts, i)[i]).Some? {
      var v := ParseNat(Padded(parts, i)[i]).value;
      SplitPiecesFree(version, ".");
      BumpedPartsDotFree(parts, i, v);
      JoinSplitLead(BumpedParts(parts, i, v), ".");
      BumpedPartsMeaning(parts, i, v);
    }
  }

  lemma BumpablePart(parts: seq<string>, i: nat)
    ensures ParseNat(Padded(parts, i)[i]).Some? <==> (i < |parts| ==> AllDigits(parts[i]))
    ensures i >= |parts| ==> ParseNat(Padded(parts, i)[i]) == Some(0)
  {
    if i >= |parts| {
      assert Padded(parts, i)[i] == "0";
      assert DigitsValue("0") == 10 * DigitsValue([]) + 0 by { assert "0"[..0] == []; }
    }
  }

  lemma BumpedPartsDotFree(parts: seq<string>, i: nat, v: nat)
    requires forall k :: 0 <= k < |parts| ==> !Contains(parts[k], ".")
    ensures forall k :: 0 <= k < |BumpedParts(parts, i, v)| ==> "."[0] !in BumpedParts(parts, i, v)[k]
  {
    var nps := BumpedParts(parts, i, v);
    forall k | 0 <= k < |nps| ensures '.' !in nps[k] {
      if k == i {
        assert forall c :: c in nps[k] ==> IsDigit(c);
      } else if k < |parts| && k <= i {
        CharFree(parts[k], '.');
      }
    }
  }

  lemma BumpedPartsMeaning(parts: seq<string>, i: nat, v: nat)
    requires ParseNat(Padded(parts, i)[i]) == Some(v)
    ensures BumpedFrom(BumpedParts(parts, i, v), parts, i)
  {
    ParseNatToString(v + 1);
    BumpablePart(parts, i);
  }

  /** The padding as written breaks the join: a version with fewer parts than the
      bumped index (a patch bump of "1") raises TypeError. */
  lemma AsWrittenTypeError(version: string, i: nat)
    requires |Split(version, ".")| < i
    ensures BumpAsWritten(version, i) == Err("TypeError")
  {
    var ps := PaddedAsWritten(Split(version, "."), i);
    var q := ps[i := Piece(NatToString(1))];
    assert q[|Split(version, ".")|].Zero?;
  }

  /** A patch bump of "1" as written raises; the corrected bump gives "1.0.1". */
  lemma PatchOfOnePart()
    ensures BumpAsWritten("1", 2) == Err("TypeError")
    ensures Bump("1", 2) == Ok("1.0.1")
  {
    assert "1"[0..1] == "1" && "1"[0] != "."[0];
    assert !OccursAt("1", ".", 0);
    assert FindFrom("1", ".", 1) == None;
    assert FindFrom("1", ".", 0) == None;
    assert Split("1", ".") == ["1"];
    AsWrittenTypeError("1", 2);
    BumpablePart(["1"], 2);
    assert BumpedParts(["1"], 2, 0) == ["1", "0", "1"];
    assert Join(".", ["1", "0", "1"]) == "1.0.1";
  }

  /** Where no padding is needed before the bumped part, the bump as written and the
      corrected bump agree. */
  lemma BumpsAgree(version: string, i: nat)
    requires i <= |Split(version, ".")|
    ensures BumpAsWritten(version, i) == Bump(version, i)
  {
    var parts := Split(version, ".");
    BumpablePart(parts, i);
    var aw := PaddedAsWritten(parts, i);
    assert IntValue(aw[i]) == ParseNat(Padded(parts, i)[i]);
    if ParseNat(Padded(parts, i)[i]).Some? {
      var v := ParseNat(Padded(parts, i)[i]).value;
      PiecesOf(parts, i, v);
    }
  }

  lemma PiecesOf(parts: seq<string>, i: nat, v: nat)
    requires i <= |parts|
    ensures var q := PaddedAsWritten(parts, i)[i := Piece(NatToString(v + 1))];
      JoinParts(q) == Ok(Join(".", BumpedParts(parts, i, v)))
  {
    var q := PaddedAsWritten(parts, i)[i := Piece(NatToString(v + 1))];
    var nps := BumpedParts(parts, i, v);
    assert |q| == |nps|;
    assert forall j :: 0 <= j < |q| ==> q[j] == Piece(nps[j]);
    assert seq(|q|, j requires 0 <= j < |q| => q[j].text) == nps;
  }

  // ---------------------------------------------------------------------------
  // `re.sub(..., replace_version, setup_text)`

  /** The text of `setup.py` as the version regex cuts it: text it leaves alone, and
      each `version = <quote><value><quote>` it matches. */
  datatype Segment = Verbatim(text: string) | Assignment(quote: char, value: string)

  datatype Rewritten = Rewritten(content: string, version: Option<string>)

  /** The replacement of one match: `version=` and the new version in the opening quote. */
  function Assigned(quote: char, version: string): string
  {
    "version=" + [quote] + version + [quote]
  }

  /** The substitution, left to right, with `replace_version` as written: an exception
      from it stops the substitution, and the version kept is the one last computed. */
  function Substitute(segs: seq<Segment>, i: nat): (r: Result<Rewritten>)
    ensures r.Err? <==> exists k :: 0 <= k < |segs| && segs[k].Assignment? && BumpAsWritten(segs[k].value, i).Err?
    ensures r.Ok? ==> (r.value.version.None? <==> forall k :: 0 <= k < |segs| ==> segs[k].Verbatim?)
    ensures r.Ok? && r.value.version.Some? ==>
      exists k :: 0 <= k < |segs| && segs[k].Assignment? && BumpAsWritten(segs[k].value, i) == Ok(r.value.version.value)
        && forall j :: k < j < |segs| ==> segs[j].Verbatim?
  {
    if segs == [] then Ok(Rewritten("", None))
    else
      match segs[0]
      case Verbatim(t) =>
        (match Substitute(segs[1..], i)
         case Err(e) => Err(e)
         case Ok(w) => Ok(Rewritten(t + w.content, w.version)))
      case Assignment(q, v) =>
        match BumpAsWritten(v, i)
        case Err(e) => Err(e)
        case Ok(nv) =>
          match Substitute(segs[1..], i)
          case Err(e) => Err(e)
          case Ok(w) => Ok(Rewritten(Assigned(q, nv) + w.content, if w.version.Some? then w.version else Some(nv)))
  }

  /** The text of the segments. */
  function TextOf(segs: seq<Segment>): string
    requires forall k :: 0 <= k < |segs| ==> segs[k].Verbatim?
  {
    if segs == [] then "" else segs[0].text + TextOf(segs[1..])
  }

  /** A file without a version assignment is written back unchanged and no version
      is found. */
  lemma {:induction false} NoAssignment(segs: seq<Segment>, i: nat)
    requires forall k :: 0 <= k < |segs| ==> segs[k].Verbatim?
    ensures Substitute(segs, i) == Ok(Rewritten(TextOf(segs), None))
    decreases |segs|
  {
    if segs != [] {
      NoAssignment(segs[1..], i);
    }
  }

  /** The usual `setup.py`, one assignment between two texts: only the assignment is
      rewritten, to the bumped version in its opening quote, and that version is kept.
      Where the version has the bumped part, that is the corrected bump; where it is
      shorter, the substitution raises TypeError. */
  lemma OneAssignment(before: string, q: char, v: string, after: string, i: nat)
    ensures var r := Substitute([Verbatim(before), Assignment(q, v), Verbatim(after)], i);
      && (r.Ok? <==> BumpAsWritten(v, i).Ok?)
      && (r.Ok? ==> r.value == Rewritten(before + Assigned(q, BumpAsWritten(v, i).value) + after, Some(BumpAsWritten(v, i).value)))
      && (i <= |Split(v, ".")| ==> (r.Ok? <==> Bump(v, i).Ok?) && (r.Ok? ==> r.value.version == Some(Bump(v, i).value)))
      && (|Split(v, ".")| < i ==> r == Err("TypeError"))
  {
    if i <= |Split(v, ".")| {
      BumpsAgree(v, i);
    } else {
      AsWrittenTypeError(v, i);
    }
    OneAssignmentSteps(before, q, v, after, i);
  }

  /** The three steps of the substitution over one assignment between two texts. */
  lemma OneAssignmentSteps(before: string, q: char, v: string, after: string, i: nat)
    ensures Substitute([Verbatim(before), Assignment(q, v), Verbatim(after)], i) ==
      match BumpAsWritten(v, i)
      case Err(e) => Err(e)
      case Ok(nv) => Ok(Rewritten(before + Assigned(q, nv) + after, Some(nv)))
  {
    var segs := [Verbatim(before), Assignment(q, v), Verbatim(after)];
    assert segs[1..] == [Assignment(q, v), Verbatim(after)];
    assert segs[1..][1..] == [Verbatim(after)];
    NoAssignment([Verbatim(after)], i);
    assert TextOf([Verbatim(after)]) == after by { assert [Verbatim(after)][1..] == []; }
    var tail := [Assignment(q, v), Verbatim(after)];
    match BumpAsWritten(v, i)
    case Err(e) =>
      assert Substitute(tail, i) == Err(e);
    case Ok(nv) =>
      assert Substitute(tail, i) == Ok(Rewritten(Assigned(q, nv) + after, Some(nv)));
      assert before + (Assigned(q, nv) + after) == before + Assigned(q, nv) + after;
  }

  /** What `bump_version` ends in. */
  datatype Outcome =
    | NoSetupFile               // logged, exit 1
    | Raised(error: string)     // an exception from the substitution; nothing written
    | NotFound(content: string) // no match: the text is written back, exit 1
    | Bumped(content: string, version: string)

  function BumpVersion(present: bool, segs: seq<Segment>, i: nat): (r: Outcome)
    ensures r.NoSetupFile? <==> !present
    ensures r.NotFound? <==> present && forall k :: 0 <= k < |segs| ==> segs[k].Verbatim?
    ensures r.Bumped? ==> exists k :: 0 <= k < |segs| && segs[k].Assignment? && BumpAsWritten(segs[k].value, i) == Ok(r.version)
  {
    if !present then NoSetupFile
    else
      match Substitute(segs, i)
      case Err(e) => Raised(e)
      case Ok(w) => if w.version.None? then NotFound(w.content) else Bumped(w.content, w.version.value)
  }
}
