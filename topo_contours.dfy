/**
 * Ingestion of USGS elevation-contour features: building contours from the
 * features of one file, reversing the segments known to be wound the wrong
 * way, grouping them by elevation, and merging the groupings of several files.
 *
 * The JSON features are abstracted to `Feature` records. The contour record is
 * taken to be `{id, elevation, points}` whose `reverse` reverses `points` in
 * place; its class is not part of this model.
 */
module TopoContours {
  import opened ContourUtils

  /** Contour elevations are the integer keys of the grouping. */
  type Elevation = int

  /** A contour: an identifier, an elevation and its points in (lat, lon) order. */
  datatype Contour = Contour(id: string, elevation: Elevation, points: seq<Pt>)
  {
    /** The same contour traversed in the opposite direction. */
    function Reverse(): (c: Contour)
      ensures c.id == id && c.elevation == elevation
      ensures |c.points| == |points|
      ensures forall i :: 0 <= i < |points| ==> c.points[i] == points[|points| - 1 - i]
    {
      Contour(id, elevation, ReverseSeq(points))
    }
  }

  /** The elements of `s` in the opposite order. */
  function ReverseSeq<T>(s: seq<T>): (r: seq<T>)
    ensures |r| == |s|
    ensures forall i :: 0 <= i < |s| ==> r[i] == s[|s| - 1 - i]
  {
    if |s| == 0 then [] else [s[|s| - 1]] + ReverseSeq(s[..|s| - 1])
  }

  /** Reversing twice gives the original sequence back. */
  lemma ReverseSeqInvolution<T>(s: seq<T>)
    ensures ReverseSeq(ReverseSeq(s)) == s
  {
  }

  /** One feature of the contour layer, as the fields the ingestion reads. */
  datatype Feature = Feature(
    fid: int,                       // the feature's "id"
    permanentIdentifier: string,    // properties["Permanent_Identifier"]
    contourElevation: Elevation,    // properties["ContourElevation"]
    coordinates: seq<seq<Coord>>)   // geometry["coordinates"]: a list of lines

  /** Contour segments known to be wound the wrong way, selected by hand. */
  const SegmentsToFlip: set<string> := {
    "031508f3-89ca-43ee-8f98-aa1a43f849cc_206",
    "8b03d49b-0e59-4f7a-91f5-7efd4d25046b_216",
    "8525de_15",
    "e964fb_16",
    "66eee2_102",
    "767ef7_118",
    "c2031c_1",
    "ab17e0_24",
    "efde8c_25",
    "de2244_116",
    "58b248_86",
    "5ac4b4_13",
    "46ede7_117",
    "90c3ee_101",
    "a273d3_14",
    "a05b67_89",
    "afbb6b_82",
    "aed65_150",
    "359cfc_101",
    "959b58_2",
    "8205f9_220",
    "4dad78_219",
    "359cfc_181",
    "b3fa7e_223",
    "4cdbb6_3",
    "bd4788_83",
    "9c6afb_153",
    "3e5f4a_85",
    "d0cf59_225",
    "d41db5_186",
    "63177_185",
    "57f876_115"
  }

  /** `needle` occurs as a contiguous piece of `hay` (Python's `needle in hay`). */
  predicate IsSubstring(needle: string, hay: string)
  {
    exists i :: 0 <= i <= |hay| && needle <= hay[i..]
  }

  /** Some entry of `SegmentsToFlip` occurs in `contourId`. */
  predicate ShouldFlip(contourId: string)
  {
    exists toFlipId :: toFlipId in SegmentsToFlip && IsSubstring(toFlipId, contourId)
  }

  /** Searches `SegmentsToFlip` for an entry that occurs in `contourId`. */
  method CheckId(contourId: string) returns (flip: bool)
    ensures flip <==> ShouldFlip(contourId)
  {
    var remaining := SegmentsToFlip;
    while remaining != {}
      invariant remaining <= SegmentsToFlip
      invariant forall s :: s in SegmentsToFlip && s !in remaining ==> !IsSubstring(s, contourId)
      decreases remaining
    {
      var toFlipId :| toFlipId in remaining;
      if IsSubstring(toFlipId, contourId) {
        return true;
      }
      remaining := remaining - {toFlipId};
    }
    return false;
  }

  /** Selection is by substring: an entry also selects every id that extends it. */
  lemma FlipSelectsExtendedIds()
    ensures ShouldFlip("c2031c_1") && ShouldFlip("c2031c_12")
    ensures ShouldFlip("x8525de_15_7")
  {
    assert "c2031c_1" in SegmentsToFlip;
    assert "c2031c_1" <= "c2031c_1"[0..];
    assert "c2031c_1" <= "c2031c_12"[0..];
    assert "8525de_15" in SegmentsToFlip;
    assert "8525de_15" <= "x8525de_15_7"[1..];
  }

  /** The set holds the ids listed in the configuration: the two long ids first, short ids after them. */
  lemma SegmentsToFlipContents()
    ensures "031508f3-89ca-43ee-8f98-aa1a43f849cc_206" in SegmentsToFlip
    ensures "8b03d49b-0e59-4f7a-91f5-7efd4d25046b_216" in SegmentsToFlip
    ensures "8525de_15" in SegmentsToFlip && "57f876_115" in SegmentsToFlip
  {
  }

  /** Ids left commented out in the configuration are not part of the set. */
  lemma CommentedOutIdsNotListed()
    ensures "9bfb93_118" !in SegmentsToFlip
    ensures "cc2cf73d-6fdf-42e0-8e0b-7464c16bce20_99" !in SegmentsToFlip
    ensures "1a098a3c-73b2-484e-83d0-f4d36cf173f9_221" !in SegmentsToFlip
    ensures "9fdb7077-85e8-4093-b5dc-43bb17a25d82_196" !in SegmentsToFlip
    ensures "1bdca8ad-5ab6-4d78-923b-ed76cb671510_172" !in SegmentsToFlip
    ensures "7fcdf282-cfef-4f40-bf27-e583a0e7ba07_115" !in SegmentsToFlip
    ensures "9630c4e6-efb9-4b2f-b1f8-b7add3a78e7b_7" !in SegmentsToFlip
    ensures "19886904-4021-41ed-ba78-3899ac975fde_219" !in SegmentsToFlip
    ensures "bb75a478-d7d6-4f68-a8b9-a20b134c8bab_117" !in SegmentsToFlip
  {
  }

  // Decimal rendering of feature ids, as Python's `str` on an integer.

  function DigitChar(d: nat): char
    requires d < 10
  {
    "0123456789"[d]
  }

  function DigitValue(c: char): int
  {
    c as int - '0' as int
  }

  predicate IsDigit(c: char)
  {
    '0' <= c <= '9'
  }

  lemma DigitRoundTrip(d: nat)
    requires d < 10
    ensures IsDigit(DigitChar(d)) && DigitValue(DigitChar(d)) == d
  {
  }

  /** The decimal digits of `n`, most significant first, without leading zeros; reading them back gives `n`. */
  function NatToDecimal(n: nat): (s: string)
    ensures |s| > 0
    ensures forall i :: 0 <= i < |s| ==> IsDigit(s[i])
    ensures |s| > 1 ==> s[0] != '0'
    ensures ParseNat(s) == n
    decreases n
  {
    DigitRoundTrip(n % 10);
    if n < 10 then [DigitChar(n)]
    else
      var prefix := NatToDecimal(n / 10);
      var s := prefix + [DigitChar(n % 10)];
      assert s[..|s| - 1] == prefix;
      s
  }

  /** Reads a string of decimal digits. */
  function ParseNat(s: string): int
  {
    if |s| == 0 then 0 else ParseNat(s[..|s| - 1]) * 10 + DigitValue(s[|s| - 1])
  }

  /** Reads an optionally signed decimal string. */
  function ParseInt(s: string): int
  {
    if |s| > 0 && s[0] == '-' then -ParseNat(s[1..]) else ParseNat(s)
  }

  /** Python's `str(i)` for an integer `i`: digits, with a sign exactly for negative `i`. */
  function IntToDecimal(i: int): (s: string)
    ensures |s| > 0
    ensures s[0] == '-' <==> i < 0
    ensures forall j :: 0 < j < |s| ==> IsDigit(s[j])
    ensures s[0] == '-' ==> |s| > 1 && s[1] != '0'
    ensures s[0] != '-' && |s| > 1 ==> s[0] != '0'
    ensures s[0] != '-' ==> IsDigit(s[0])
  {
    if i < 0 then
      var digits := NatToDecimal(-i);
      var s := "-" + digits;
      assert forall j :: 1 <= j < |s| ==> s[j] == digits[j - 1];
      s
    else
      var s := NatToDecimal(i);
      assert IsDigit(s[0]);
      s
  }

  /** Reading back `str(i)` gives `i`. */
  lemma ParseIntOfDecimal(i: int)
    ensures ParseInt(IntToDecimal(i)) == i
  {
    var s := IntToDecimal(i);
    if i < 0 {
      assert s[1..] == NatToDecimal(-i);
    }
  }

  /**
   * The identifier a contour gets: the permanent identifier, "_", and the
   * feature id; the part after the underscore contains no underscore.
   */
  function ContourId(permanentIdentifier: string, fid: int): (id: string)
    ensures |id| > |permanentIdentifier| + 1
    ensures id[..|permanentIdentifier|] == permanentIdentifier && id[|permanentIdentifier|] == '_'
    ensures id[|permanentIdentifier| + 1..] == IntToDecimal(fid)
    ensures forall j :: |permanentIdentifier| < j < |id| ==> id[j] != '_'
  {
    var digits := IntToDecimal(fid);
    var id := permanentIdentifier + "_" + digits;
    assert id[|permanentIdentifier| + 1..] == digits;
    assert forall j :: |permanentIdentifier| < j < |id| ==> id[j] == digits[j - |permanentIdentifier| - 1];
    id
  }

  /**
   * Contour ids are unique per feature: two features get the same id only when
   * both their permanent identifiers and their feature ids agree.
   */
  lemma ContourIdInjective(p1: string, fid1: int, p2: string, fid2: int)
    requires ContourId(p1, fid1) == ContourId(p2, fid2)
    ensures p1 == p2 && fid1 == fid2
  {
    var id := ContourId(p1, fid1);
    assert id[|p1|] == '_' && id[|p2|] == '_';
    assert |p1| == |p2|;
    ParseIntOfDecimal(fid1);
    ParseIntOfDecimal(fid2);
  }

  /**
   * The contour built from one feature: its first line with every coordinate
   * pair swapped into (lat, lon), reversed when its id is to be flipped. It
   * fails when the feature has no line or a coordinate tuple is too short.
   */
  function FeatureContour(f: Feature): (r: Result<Contour>)
    ensures r.Failure? <==>
      |f.coordinates| == 0 || exists i :: 0 <= i < |f.coordinates[0]| && |f.coordinates[0][i]| < 2
    ensures r.Failure? ==> r.error == (if |f.coordinates| == 0 then EmptyGeometry else ShortCoordinate)
    ensures r.Success? ==>
      && r.value.id == ContourId(f.permanentIdentifier, f.fid)
      && r.value.elevation == f.contourElevation
      && |r.value.points| == |f.coordinates[0]|
  {
    if |f.coordinates| == 0 then Failure(EmptyGeometry)
    else
      match ConvertToPts(f.coordinates[0])
      case Failure(err) => Failure(err)
      case Success(points) =>
        var contour := Contour(ContourId(f.permanentIdentifier, f.fid), f.contourElevation, points);
        Success(if ShouldFlip(contour.id) then contour.Reverse() else contour)
  }

  /** The points of a feature's contour are its first line's, swapped into (lat, lon), reversed when the id is to be flipped. */
  lemma FeatureContourShape(f: Feature)
    requires FeatureContour(f).Success?
    ensures var c, line := FeatureContour(f).value, f.coordinates[0];
      forall i :: 0 <= i < |line| ==>
        var j := if ShouldFlip(c.id) then |line| - 1 - i else i;
        c.points[i] == Pt(line[j][1], line[j][0])
  {
  }

  /** The results of the features one by one. */
  function ContourResults(fs: seq<Feature>): (rs: seq<Result<Contour>>)
    ensures |rs| == |fs|
    ensures forall i :: 0 <= i < |fs| ==> rs[i] == FeatureContour(fs[i])
  {
    if |fs| == 0 then [] else ContourResults(fs[..|fs| - 1]) + [FeatureContour(fs[|fs| - 1])]
  }

  /** All values in order when every result succeeds, otherwise the first error (a loop that returns early). */
  function Collect<T>(rs: seq<Result<T>>): Result<seq<T>>
  {
    if |rs| == 0 then Success([])
    else
      match Collect(rs[..|rs| - 1])
      case Failure(err) => Failure(err)
      case Success(vs) =>
        match rs[|rs| - 1]
        case Failure(err) => Failure(err)
        case Success(v) => Success(vs + [v])
  }

  /** Collecting succeeds exactly when every result does, and then keeps every value in place. */
  lemma {:induction false} CollectPointwise<T>(rs: seq<Result<T>>)
    ensures Collect(rs).Success? <==> forall i :: 0 <= i < |rs| ==> rs[i].Success?
    ensures Collect(rs).Success? ==>
      |Collect(rs).value| == |rs| && forall i :: 0 <= i < |rs| ==> Collect(rs).value[i] == rs[i].value
  {
    if |rs| > 0 {
      var init := rs[..|rs| - 1];
      CollectPointwise(init);
      assert forall i :: 0 <= i < |init| ==> init[i] == rs[i];
      if Collect(init).Failure? {
        var i :| 0 <= i < |init| && init[i].Failure?;
        assert rs[i].Failure?;
      }
    }
  }

  /** A failed collection carries the error of the first failing result. */
  lemma {:induction false} CollectFirstFailure<T>(rs: seq<Result<T>>)
    ensures Collect(rs).Failure? ==>
      exists i :: 0 <= i < |rs| && rs[i].Failure? && Collect(rs).error == rs[i].error
        && forall j :: 0 <= j < i ==> rs[j].Success?
  {
    if |rs| > 0 {
      var init := rs[..|rs| - 1];
      if Collect(init).Failure? {
        CollectFirstFailure(init);
        var i :| 0 <= i < |init| && init[i].Failure? && Collect(init).error == init[i].error
                 && forall j :: 0 <= j < i ==> init[j].Success?;
        assert forall j :: 0 <= j <= i ==> init[j] == rs[j];
      } else if rs[|rs| - 1].Failure? {
        CollectPointwise(init);
        assert forall j :: 0 <= j < |init| ==> init[j] == rs[j];
      }
    }
  }

  /** Once a prefix fails, the whole collection fails with the same error. */
  lemma {:induction false} CollectPrefixFailure<T>(rs: seq<Result<T>>, n: nat)
    requires 0 < n <= |rs|
    requires Collect(rs[..n - 1]).Success? && rs[n - 1].Failure?
    ensures Collect(rs) == Failure(rs[n - 1].error)
    decreases |rs|
  {
    if n < |rs| {
      var init := rs[..|rs| - 1];
      assert init[..n - 1] == rs[..n - 1];
      assert init[n - 1] == rs[n - 1];
      CollectPrefixFailure(init, n);
    } else {
      assert rs[..|rs| - 1] == rs[..n - 1];
    }
  }

  /** The contours of a sequence of features, or the error of the first feature that fails. */
  function FeatureContours(fs: seq<Feature>): Result<seq<Contour>>
  {
    Collect(ContourResults(fs))
  }

  /** The results of a prefix of the features are a prefix of the results. */
  lemma ContourResultsPrefix(fs: seq<Feature>, n: nat)
    requires n <= |fs|
    ensures ContourResults(fs[..n]) == ContourResults(fs)[..n]
  {
    var a, b := ContourResults(fs[..n]), ContourResults(fs)[..n];
    forall i | 0 <= i < n ensures a[i] == b[i] {
      assert fs[..n][i] == fs[i];
    }
  }

  /** Success means every feature converts, giving one contour per feature in feature order. */
  lemma FeatureContoursPointwise(fs: seq<Feature>)
    ensures FeatureContours(fs).Success? <==> forall i :: 0 <= i < |fs| ==> FeatureContour(fs[i]).Success?
    ensures FeatureContours(fs).Success? ==>
      |FeatureContours(fs).value| == |fs|
      && forall i :: 0 <= i < |fs| ==> FeatureContours(fs).value[i] == FeatureContour(fs[i]).value
  {
    CollectPointwise(ContourResults(fs));
  }

  /** A failure is the error of the first feature that does not convert. */
  lemma FeatureContoursFirstFailure(fs: seq<Feature>)
    ensures FeatureContours(fs).Failure? ==>
      exists i :: 0 <= i < |fs| && FeatureContour(fs[i]).Failure?
        && FeatureContours(fs).error == FeatureContour(fs[i]).error
        && forall j :: 0 <= j < i ==> FeatureContour(fs[j]).Success?
  {
    CollectFirstFailure(ContourResults(fs));
  }

  /** The contours of `cs` with elevation `k`, in their order in `cs`. */
  function Bucket(cs: seq<Contour>, k: Elevation): seq<Contour>
  {
    if |cs| == 0 then []
    else Bucket(cs[..|cs| - 1], k) + (if cs[|cs| - 1].elevation == k then [cs[|cs| - 1]] else [])
  }

  /** A bucket holds exactly the contours of the given elevation. */
  lemma {:induction false} BucketMembers(cs: seq<Contour>, k: Elevation)
    ensures forall c :: c in Bucket(cs, k) <==> c in cs && c.elevation == k
  {
    if |cs| > 0 {
      BucketMembers(cs[..|cs| - 1], k);
      assert cs == cs[..|cs| - 1] + [cs[|cs| - 1]];
    }
  }

  /** Bucketing commutes with concatenation, so the input order is kept within a bucket. */
  lemma {:induction false} BucketConcat(a: seq<Contour>, b: seq<Contour>, k: Elevation)
    ensures Bucket(a + b, k) == Bucket(a, k) + Bucket(b, k)
  {
    if |b| == 0 {
      assert a + b == a;
    } else {
      var b' := b[..|b| - 1];
      BucketConcat(a, b', k);
      assert (a + b)[..|a + b| - 1] == a + b';
      assert (a + b)[|a + b| - 1] == b[|b| - 1];
    }
  }

  /** The elevations that occur in `cs`. */
  function Elevations(cs: seq<Contour>): set<Elevation>
  {
    set c | c in cs :: c.elevation
  }

  /** The grouping of contours by elevation: one bucket per elevation that occurs. */
  function Grouped(cs: seq<Contour>): map<Elevation, seq<Contour>>
  {
    map k | k in Elevations(cs) :: Bucket(cs, k)
  }

  /** An elevation that does not occur has an empty bucket. */
  lemma BucketOfAbsentElevation(cs: seq<Contour>, k: Elevation)
    requires k !in Elevations(cs)
    ensures Bucket(cs, k) == []
  {
    BucketMembers(cs, k);
    if Bucket(cs, k) != [] {
      assert Bucket(cs, k)[0] in Bucket(cs, k);
    }
  }

  /** Appending one contour to the input extends (or starts) the bucket of its elevation. */
  lemma GroupedSnoc(cs: seq<Contour>, c: Contour)
    ensures Grouped(cs + [c]) ==
      Grouped(cs)[c.elevation := (if c.elevation in Grouped(cs) then Grouped(cs)[c.elevation] else []) + [c]]
  {
    var cs' := cs + [c];
    assert cs'[..|cs'| - 1] == cs;
    assert Elevations(cs') == Elevations(cs) + {c.elevation} by {
      forall k | k in Elevations(cs') ensures k in Elevations(cs) + {c.elevation} {
        var d :| d in cs' && d.elevation == k;
      }
      forall k | k in Elevations(cs) ensures k in Elevations(cs') {
        var d :| d in cs && d.elevation == k;
        assert d in cs';
      }
    }
    if c.elevation !in Elevations(cs) {
      BucketOfAbsentElevation(cs, c.elevation);
    }
    var m1 := Grouped(cs');
    var m2 := Grouped(cs)[c.elevation := (if c.elevation in Grouped(cs) then Grouped(cs)[c.elevation] else []) + [c]];
    assert m1.Keys == m2.Keys;
    forall k | k in m1 ensures m1[k] == m2[k] {
      assert Bucket(cs', k) == Bucket(cs, k) + (if c.elevation == k then [c] else []);
    }
  }

  /**
   * Builds the contours of one file's features and groups them by elevation.
   * Fails with the error of the first feature whose geometry cannot be read.
   */
  method GetTopoContours(topoFeatures: seq<Feature>) returns (r: Result<map<Elevation, seq<Contour>>>)
    ensures r.Failure? <==> FeatureContours(topoFeatures).Failure?
    ensures r.Failure? ==> r.error == FeatureContours(topoFeatures).error
    ensures r.Success? ==> r.value == Grouped(FeatureContours(topoFeatures).value)
    ensures r.Success? ==> r.value.Keys == set f | f in topoFeatures :: f.contourElevation
  {
    var topoLines: map<Elevation, seq<Contour>> := map[];
    var i := 0;
    while i < |topoFeatures|
      invariant 0 <= i <= |topoFeatures|
      invariant FeatureContours(topoFeatures[..i]).Success?
      invariant topoLines == Grouped(FeatureContours(topoFeatures[..i]).value)
    {
      var f := topoFeatures[i];
      var elevation := f.contourElevation;
      var id := ContourId(f.permanentIdentifier, f.fid);
      if |f.coordinates| == 0 {
        assert topoFeatures[..i + 1][..i] == topoFeatures[..i];
        PrefixFailureIsFinal(topoFeatures, i + 1);
        return Failure(EmptyGeometry);
      }
      var line := f.coordinates[0];
      var points := ConvertToPts(line);
      if points.Failure? {
        assert topoFeatures[..i + 1][..i] == topoFeatures[..i];
        PrefixFailureIsFinal(topoFeatures, i + 1);
        return Failure(points.error);
      }
      var contour := Contour(id, elevation, points.value);
      var flip := CheckId(contour.id);
      if flip {
        contour := contour.Reverse();
      }
      FeatureContourOf(f, points.value);
      FeatureContoursSnoc(topoFeatures, i);
      GroupedSnoc(FeatureContours(topoFeatures[..i]).value, contour);
      topoLines := topoLines[elevation := (if elevation in topoLines then topoLines[elevation] else []) + [contour]];
      i := i + 1;
    }
    assert topoFeatures[..i] == topoFeatures;
    GroupedKeys(topoFeatures);
    return Success(topoLines);
  }

  /** The contour of a feature whose first line converts. */
  lemma FeatureContourOf(f: Feature, points: seq<Pt>)
    requires |f.coordinates| > 0 && ConvertToPts(f.coordinates[0]) == Success(points)
    ensures
      var c := Contour(ContourId(f.permanentIdentifier, f.fid), f.contourElevation, points);
      FeatureContour(f) == Success(if ShouldFlip(c.id) then c.Reverse() else c)
  {
  }

  /** Once a prefix of the features fails, the whole sequence fails with the same error. */
  lemma PrefixFailureIsFinal(fs: seq<Feature>, n: nat)
    requires 0 < n <= |fs|
    requires FeatureContours(fs[..n - 1]).Success?
    requires FeatureContour(fs[n - 1]).Failure?
    ensures FeatureContours(fs).Failure?
    ensures FeatureContours(fs).error == FeatureContour(fs[n - 1]).error
  {
    ContourResultsPrefix(fs, n - 1);
    CollectPrefixFailure(ContourResults(fs), n);
  }

  /** One more feature that converts extends the contours by its contour. */
  lemma FeatureContoursSnoc(fs: seq<Feature>, i: nat)
    requires i < |fs|
    requires FeatureContours(fs[..i]).Success? && FeatureContour(fs[i]).Success?
    ensures FeatureContours(fs[..i + 1]) == Success(FeatureContours(fs[..i]).value + [FeatureContour(fs[i]).value])
  {
    ContourResultsPrefix(fs, i);
    ContourResultsPrefix(fs, i + 1);
    var rs := ContourResults(fs);
    assert rs[..i + 1][..i] == rs[..i];
  }

  /** Each built contour has the elevation of its feature. */
  lemma ContourElevations(fs: seq<Feature>)
    requires FeatureContours(fs).Success?
    ensures |FeatureContours(fs).value| == |fs|
    ensures forall j :: 0 <= j < |fs| ==> FeatureContours(fs).value[j].elevation == fs[j].contourElevation
  {
    FeatureContoursPointwise(fs);
    var cs := FeatureContours(fs).value;
    forall j | 0 <= j < |fs| ensures cs[j].elevation == fs[j].contourElevation {
      var r := FeatureContour(fs[j]);
      assert r.Success? && cs[j] == r.value;
    }
  }

  /** The elevations of the built contours are the elevations of the features. */
  lemma GroupedKeys(fs: seq<Feature>)
    requires FeatureContours(fs).Success?
    ensures Grouped(FeatureContours(fs).value).Keys == set f | f in fs :: f.contourElevation
  {
    ContourElevations(fs);
    var cs := FeatureContours(fs).value;
    forall k | k in Elevations(cs) ensures k in set f | f in fs :: f.contourElevation {
      var c :| c in cs && c.elevation == k;
      var j :| 0 <= j < |cs| && cs[j] == c;
      assert fs[j] in fs;
    }
    forall k | k in set f | f in fs :: f.contourElevation ensures k in Elevations(cs) {
      var f :| f in fs && f.contourElevation == k;
      var j :| 0 <= j < |fs| && fs[j] == f;
      assert cs[j] in cs;
    }
  }

  // Merging the groupings of several files.

  /** The keys of all dictionaries in the list. */
  function AllKeys<K, V>(dictList: seq<map<K, seq<V>>>): set<K>
  {
    if |dictList| == 0 then {} else AllKeys(dictList[..|dictList| - 1]) + dictList[|dictList| - 1].Keys
  }

  /** The lists under key `k`, concatenated in dictionary order; a missing key adds nothing. */
  function Concatenated<K, V>(dictList: seq<map<K, seq<V>>>, k: K): seq<V>
  {
    if |dictList| == 0 then []
    else
      var d := dictList[|dictList| - 1];
      Concatenated(dictList[..|dictList| - 1], k) + (if k in d then d[k] else [])
  }

  /** A key is in the union exactly when some dictionary has it; otherwise nothing is concatenated. */
  lemma {:induction false} AllKeysMembers<K, V>(dictList: seq<map<K, seq<V>>>, k: K)
    ensures k in AllKeys(dictList) <==> exists i :: 0 <= i < |dictList| && k in dictList[i]
    ensures k !in AllKeys(dictList) ==> Concatenated(dictList, k) == []
  {
    if |dictList| > 0 {
      var init := dictList[..|dictList| - 1];
      AllKeysMembers(init, k);
      if k in AllKeys(dictList) && k !in dictList[|dictList| - 1] {
        var i :| 0 <= i < |init| && k in init[i];
        assert dictList[i] == init[i];
      }
      if exists i :: 0 <= i < |dictList| && k in dictList[i] {
        var i :| 0 <= i < |dictList| && k in dictList[i];
        if i < |init| {
          assert init[i] == dictList[i];
        }
      }
    }
  }

  /** Taking one more dictionary adds its keys and appends its list under each key. */
  lemma ConcatenatedSnoc<K, V>(dictList: seq<map<K, seq<V>>>, i: nat)
    requires i < |dictList|
    ensures AllKeys(dictList[..i + 1]) == AllKeys(dictList[..i]) + dictList[i].Keys
    ensures forall k ::
      Concatenated(dictList[..i + 1], k) == Concatenated(dictList[..i], k) + (if k in dictList[i] then dictList[i][k] else [])
  {
    assert dictList[..i + 1][..i] == dictList[..i];
  }

  /** Concatenation per key distributes over splitting the list of dictionaries. */
  lemma {:induction false} ConcatenatedAppend<K, V>(a: seq<map<K, seq<V>>>, b: seq<map<K, seq<V>>>, k: K)
    ensures Concatenated(a + b, k) == Concatenated(a, k) + Concatenated(b, k)
  {
    if |b| == 0 {
      assert a + b == a;
    } else {
      var b' := b[..|b| - 1];
      ConcatenatedAppend(a, b', k);
      assert (a + b)[..|a + b| - 1] == a + b';
      assert (a + b)[|a + b| - 1] == b[|b| - 1];
    }
  }

  /** The lists `merged` holds once the keys of `d` outside `remaining` have been merged into `acc`. */
  ghost predicate PartlyMerged<K, V>(acc: map<K, seq<V>>, d: map<K, seq<V>>, merged: map<K, seq<V>>, remaining: set<K>)
  {
    && remaining <= d.Keys
    && merged.Keys == acc.Keys + (d.Keys - remaining)
    && forall k :: k in merged ==>
      merged[k] == (if k in acc then acc[k] else []) + (if k in d && k !in remaining then d[k] else [])
  }

  /** Merging one more key of `d` keeps the partial merge in step. */
  lemma MergeStep<K, V>(acc: map<K, seq<V>>, d: map<K, seq<V>>, merged: map<K, seq<V>>, remaining: set<K>, k: K)
    requires PartlyMerged(acc, d, merged, remaining) && k in remaining
    ensures PartlyMerged(acc, d, merged[k := (if k in merged then merged[k] else []) + d[k]], remaining - {k})
  {
    var next := merged[k := (if k in merged then merged[k] else []) + d[k]];
    forall k' | k' in next
      ensures next[k'] == (if k' in acc then acc[k'] else []) + (if k' in d && k' !in remaining - {k} then d[k'] else [])
    {
      if k' != k {
        assert next[k'] == merged[k'];
      }
    }
  }

  /**
   * The inner loop of the merge: appends each list of `d` to the list the
   * accumulator holds under the same key, creating the key when it is missing.
   */
  method MergeInto<K, V>(acc: map<K, seq<V>>, d: map<K, seq<V>>) returns (merged: map<K, seq<V>>)
    ensures merged.Keys == acc.Keys + d.Keys
    ensures forall k :: k in merged ==>
      merged[k] == (if k in acc then acc[k] else []) + (if k in d then d[k] else [])
  {
    merged := acc;
    var remaining := d.Keys;
    while remaining != {}
      invariant PartlyMerged(acc, d, merged, remaining)
      decreases remaining
    {
      var k :| k in remaining;
      var current := if k in merged then merged[k] else [];
      MergeStep(acc, d, merged, remaining, k);
      merged := merged[k := current + d[k]];
      remaining := remaining - {k};
    }
  }

  /**
   * Merges dictionaries of lists: every key of any input is in the result, with
   * the lists of that key concatenated in the order of `dictList`.
   */
  method CombineDicts<K, V>(dictList: seq<map<K, seq<V>>>) returns (outDict: map<K, seq<V>>)
    ensures outDict.Keys == AllKeys(dictList)
    ensures forall k :: k in outDict ==> outDict[k] == Concatenated(dictList, k)
  {
    outDict := map[];
    for i := 0 to |dictList|
      invariant outDict.Keys == AllKeys(dictList[..i])
      invariant forall k :: k in outDict ==> outDict[k] == Concatenated(dictList[..i], k)
    {
      ghost var before := outDict;
      outDict := MergeInto(outDict, dictList[i]);
      ConcatenatedSnoc(dictList, i);
      forall k | k in outDict
        ensures outDict[k] == Concatenated(dictList[..i + 1], k)
      {
        AllKeysMembers(dictList[..i], k);
      }
    }
    assert dictList[..|dictList|] == dictList;
  }

  /** The groupings of several lists of contours, one per list. */
  function GroupedEach(css: seq<seq<Contour>>): (ds: seq<map<Elevation, seq<Contour>>>)
    ensures |ds| == |css|
    ensures forall i :: 0 <= i < |css| ==> ds[i] == Grouped(css[i])
  {
    if |css| == 0 then [] else GroupedEach(css[..|css| - 1]) + [Grouped(css[|css| - 1])]
  }

  /** All lists of contours, one after the other. */
  function Flatten(css: seq<seq<Contour>>): seq<Contour>
  {
    if |css| == 0 then [] else Flatten(css[..|css| - 1]) + css[|css| - 1]
  }

  /**
   * Grouping each file's contours and merging the groupings gives, under every
   * elevation, the same list as grouping all contours of all files at once.
   */
  lemma {:induction false} CombineGroupedIsGroupedFlatten(css: seq<seq<Contour>>, k: Elevation)
    ensures Concatenated(GroupedEach(css), k) == Bucket(Flatten(css), k)
  {
    if |css| > 0 {
      var init := css[..|css| - 1];
      var last := css[|css| - 1];
      CombineGroupedIsGroupedFlatten(init, k);
      assert GroupedEach(css)[..|css| - 1] == GroupedEach(init);
      BucketConcat(Flatten(init), last, k);
      if k !in Elevations(last) {
        BucketOfAbsentElevation(last, k);
      }
    }
  }
}
