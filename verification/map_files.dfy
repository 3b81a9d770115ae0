/**
 * The names of the cached map files: the service derives one from a bounding box or from a place name, the
 * network type and the optimisation flag; the command-line tool derives one from the place name alone.
 * Downloading, loading and saving the maps are not modelled.
 */
module MapFiles {
  import opened Wrappers
  import opened Text

  /** The stem of a place name: the part before its first comma, lower-cased, with spaces replaced by '_'. */
  function Stem(place: string): (r: string)
    ensures |r| <= |place|
    ensures ',' !in r && ' ' !in r
  {
    var head := BeforeFirst(place, ',');
    var lowered := Lower(head);
    assert ',' !in lowered by {
      forall i | 0 <= i < |lowered| ensures lowered[i] != ',' {
        assert head[i] in head;
      }
    }
    ReplaceChar(lowered, ' ', '_')
  }

  /** Every character of the stem comes from the first comma-separated part of the place name, lower-cased, with
      a space turned into '_'. */
  lemma {:induction false} StemChars(place: string)
    ensures var head := BeforeFirst(place, ',');
      && |Stem(place)| == |head|
      && forall i :: 0 <= i < |head| ==> Stem(place)[i] == if head[i] == ' ' then '_' else LowerChar(head[i])
  {
  }

  /** A text with no comma is its own part before the first comma. */
  lemma {:induction false} BeforeFirstOfPlain(s: string, sep: char)
    requires sep !in s
    ensures BeforeFirst(s, sep) == s
  {
    assert forall i :: 0 <= i < |s| ==> s[i] in s;
  }

  /** A stem is already sanitised: deriving the stem of a stem gives it back. */
  lemma {:induction false} StemIdempotent(place: string)
    ensures Stem(Stem(place)) == Stem(place)
  {
    var s := Stem(place);
    BeforeFirstOfPlain(s, ',');
    StemChars(place);
    StemChars(s);
    forall i | 0 <= i < |s| ensures Stem(s)[i] == s[i] {
      assert s[i] in s;
    }
  }

  /** A place qualified by a region after a comma ("City,Region") has the stem of the bare city. */
  lemma {:induction false} StemOfQualifiedPlace(city: string, region: string)
    requires ',' !in city
    ensures Stem(city + "," + region) == Stem(city)
  {
    var s := city + "," + region;
    var b := BeforeFirst(s, ',');
    assert s[..|city|] == city && s[|city|] == ',';
    assert forall i :: 0 <= i < |city| ==> s[i] == city[i] && city[i] in city;
    assert forall i :: 0 <= i < |b| ==> b[i] in b;
    assert b == city;
  }

  // ---------------------------------------------------------------------------------------
  // The service (`get_map` with a bounding box, place name, network type and optimisation flag)

  /** The optimisation suffix: "_optimized" exactly when the map is optimised. */
  function Suffix(optimize: bool): string {
    if optimize then "_optimized" else ""
  }

  /** A Python value is truthy: a missing or empty text is not. */
  predicate Given(s: Option<string>) {
    s.Some? && s.value != ""
  }

  /** What the start of `get_map` decides: the file to use, the error result, or the `IndexError` that formatting a
      bounding box of fewer than four parts raises. A bounding box is given as its formatted parts. */
  datatype Choice = File(name: string) | ErrorResult | IndexError

  /** The file-name derivation at the start of `get_map`. */
  function ServiceFile(place: Option<string>, networkType: string, bbox: seq<string>, optimize: bool): Choice {
    var suffix := Suffix(optimize);
    if |bbox| > 0 then
      if |bbox| < 4 then IndexError
      else File("bbox_" + bbox[0] + "_" + bbox[1] + "_" + bbox[2] + "_" + bbox[3] + suffix + ".graphml")
    else if Given(place) then File(Stem(place.value) + "_" + networkType + suffix + ".graphml")
    else ErrorResult
  }

  /** The error result is returned exactly when there is neither a bounding box nor a place name; a bounding box
      of fewer than four parts raises; otherwise there is a file. */
  lemma {:induction false} ServiceFileOutcome(place: Option<string>, networkType: string, bbox: seq<string>, optimize: bool)
    ensures ServiceFile(place, networkType, bbox, optimize).ErrorResult? <==> |bbox| == 0 && !Given(place)
    ensures ServiceFile(place, networkType, bbox, optimize).IndexError? <==> 0 < |bbox| < 4
    ensures ServiceFile(place, networkType, bbox, optimize).File? <==> |bbox| >= 4 || (|bbox| == 0 && Given(place))
  {
  }

  /** A bounding box wins over a place name: with one, the place name does not matter. */
  lemma {:induction false} BoundingBoxWins(p1: Option<string>, p2: Option<string>, networkType: string, bbox: seq<string>,
                                           optimize: bool)
    requires |bbox| > 0
    ensures ServiceFile(p1, networkType, bbox, optimize) == ServiceFile(p2, networkType, bbox, optimize)
  {
  }

  /** Every file name ends in ".graphml", preceded by "_optimized" when the map is optimised. */
  lemma {:induction false} ServiceFileSuffix(place: Option<string>, networkType: string, bbox: seq<string>, optimize: bool)
    requires ServiceFile(place, networkType, bbox, optimize).File?
    ensures var name := ServiceFile(place, networkType, bbox, optimize).name;
      var tail := Suffix(optimize) + ".graphml";
      |tail| <= |name| && name[|name| - |tail|..] == tail
  {
    var name := ServiceFile(place, networkType, bbox, optimize).name;
    var tail := Suffix(optimize) + ".graphml";
    if |bbox| > 0 {
      var front := "bbox_" + bbox[0] + "_" + bbox[1] + "_" + bbox[2] + "_" + bbox[3];
      assert name == front + tail;
    } else {
      var front := Stem(place.value) + "_" + networkType;
      assert name == front + tail;
    }
  }

  /** For a place name, the file starts with the stem and then the network type, and its stem part holds no comma
      and no space. */
  lemma {:induction false} ServiceFileOfPlace(place: string, networkType: string, optimize: bool)
    requires place != ""
    ensures var name := ServiceFile(Some(place), networkType, [], optimize).name;
      var front := Stem(place) + "_" + networkType;
      |front| <= |name| && name[..|front|] == front
  {
    var front := Stem(place) + "_" + networkType;
    assert ServiceFile(Some(place), networkType, [], optimize).name == front + (Suffix(optimize) + ".graphml");
  }

  /** Two network types of one place are kept in two different files. */
  lemma {:induction false} ServiceSeparatesNetworks(place: string, t1: string, t2: string, optimize: bool)
    requires place != "" && t1 != t2
    ensures ServiceFile(Some(place), t1, [], optimize) != ServiceFile(Some(place), t2, [], optimize)
  {
    var stem := Stem(place) + "_";
    var n1 := ServiceFile(Some(place), t1, [], optimize).name;
    var n2 := ServiceFile(Some(place), t2, [], optimize).name;
    var tail := Suffix(optimize) + ".graphml";
    assert n1 == stem + t1 + tail;
    assert n2 == stem + t2 + tail;
    if n1 == n2 {
      assert t1 + tail == n1[|stem|..] == n2[|stem|..] == t2 + tail;
      SeparatedPrefix(t1, t2, tail);
    }
  }

  /** Appending one tail to two texts keeps them apart. */
  lemma {:induction false} SeparatedPrefix(a: string, b: string, tail: string)
    requires a + tail == b + tail
    ensures a == b
  {
    assert |a| == |b|;
    assert a == (a + tail)[..|a|] == (b + tail)[..|b|] == b;
  }

  // ---------------------------------------------------------------------------------------
  // The command-line tool (`get_map(place_name, network_type)`)

  /** The file the command-line tool uses for a place; the network type plays no part. */
  function ToolFile(place: string, networkType: string): (r: string)
    ensures |r| >= |".graphml"| && r[|r| - |".graphml"|..] == ".graphml"
    ensures r[..|r| - |".graphml"|] == Stem(place)
  {
    Stem(place) + ".graphml"
  }

  /** Different network types of one place share one file of the command-line tool. */
  lemma {:induction false} ToolSharesNetworks(place: string, t1: string, t2: string)
    ensures ToolFile(place, t1) == ToolFile(place, t2)
  {
  }

  /** The command-line tool's file name holds no comma and no space before its extension, and naming the file of
      its own stem gives the same file. */
  lemma {:induction false} ToolFileSanitised(place: string, networkType: string)
    ensures var r := ToolFile(place, networkType);
      var stem := r[..|r| - |".graphml"|];
      && ',' !in stem && ' ' !in stem
      && ToolFile(stem, networkType) == r
  {
    StemIdempotent(place);
  }

  /** A place qualified by its region ("City, Region") shares the file of the bare city. */
  lemma {:induction false} ToolIgnoresRegion(city: string, region: string, networkType: string)
    requires ',' !in city
    ensures ToolFile(city + "," + region, networkType) == ToolFile(city, networkType)
  {
    StemOfQualifiedPlace(city, region);
  }
}
