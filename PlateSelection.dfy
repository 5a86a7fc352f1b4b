/** Choosing a plate from the OCR reader's detections: sort them by
    confidence, highest first, normalise each text (upper case, spaces and
    hyphens removed) and take the first that is long enough and confident
    enough. */
module PlateSelection {
  import opened Models
  import opened Sorting

  /** One OCR detection: the text read and the reader's confidence (the
      bounding box is never used). */
  datatype Detection = Detection(text: string, confidence: real)

  const MinPlateLength := 4
  const MinConfidence := 0.5

  /** Upper case of one character, for the scripts a plate is written in:
      Latin, Cyrillic, and the Mongolian letters Ө and Ү. */
  function UpperChar(c: char): char {
    if 'a' <= c <= 'z' then (c as int - 32) as char
    else if 'а' <= c <= 'я' then (c as int - 0x20) as char
    else if 'ѐ' <= c <= 'џ' then (c as int - 0x50) as char
    else if c == 'ө' then 'Ө'
    else if c == 'ү' then 'Ү'
    else c
  }

  predicate UpperCased(s: string) {
    forall i :: 0 <= i < |s| ==> UpperChar(s[i]) == s[i]
  }

  /** `str.upper()`. */
  function Upper(s: string): (r: string)
    ensures |r| == |s|
  {
    if s == [] then [] else [UpperChar(s[0])] + Upper(s[1..])
  }

  /** `str.replace(c, "")`: every occurrence of `c` removed, the rest kept
      in order (`WithoutKeepsOthers`, `WithoutAbsent`, `WithoutAppend`). */
  function Without(s: string, c: char): string
  {
    if s == [] then []
    else
      (if s[0] == c then [] else [s[0]]) + Without(s[1..], c)
  }

  /** Each character is upper-cased in place. */
  lemma {:induction false} UpperPointwise(s: string)
    ensures |Upper(s)| == |s|
    ensures forall i :: 0 <= i < |s| ==> Upper(s)[i] == UpperChar(s[i])
  {
    if s != [] {
      UpperPointwise(s[1..]);
      assert forall i :: 1 <= i < |s| ==> s[1..][i - 1] == s[i];
    }
  }

  /** Every `c` is removed and every other character is kept, as often as
      it occurs. */
  lemma {:induction false} WithoutKeepsOthers(s: string, c: char)
    ensures c !in Without(s, c)
    ensures forall x :: x != c ==> multiset(Without(s, c))[x] == multiset(s)[x]
  {
    if s != [] {
      WithoutKeepsOthers(s[1..], c);
      assert s == [s[0]] + s[1..];
    }
  }

  /** Text without the character comes back unchanged. */
  lemma {:induction false} WithoutAbsent(s: string, c: char)
    requires c !in s
    ensures Without(s, c) == s
  {
    if s != [] {
      assert c !in s[1..] by {
        assert forall x :: x in s[1..] ==> x in s;
      }
      WithoutAbsent(s[1..], c);
    }
  }

  /** Removal works piece by piece, so the kept characters stay in order. */
  lemma {:induction false} WithoutAppend(a: string, b: string, c: char)
    ensures Without(a + b, c) == Without(a, c) + Without(b, c)
  {
    if a != [] {
      assert (a + b)[0] == a[0] && (a + b)[1..] == a[1..] + b;
      WithoutAppend(a[1..], b, c);
    } else {
      assert a + b == b;
    }
  }

  lemma {:induction false} UpperIsUpperCased(s: string)
    ensures UpperCased(Upper(s))
  {
    if s != [] {
      UpperIsUpperCased(s[1..]);
      var r := Upper(s);
      assert r == [UpperChar(s[0])] + Upper(s[1..]);
      forall i | 0 <= i < |r| ensures UpperChar(r[i]) == r[i] {
        if i > 0 {
          assert r[i] == Upper(s[1..])[i - 1];
        }
      }
    }
  }

  lemma {:induction false} WithoutKeepsUpperCased(s: string, c: char)
    requires UpperCased(s)
    ensures UpperCased(Without(s, c))
  {
    if s != [] {
      var rest := Without(s[1..], c);
      assert UpperCased(s[1..]) by {
        forall i | 0 <= i < |s[1..]| ensures UpperChar(s[1..][i]) == s[1..][i] {
          assert s[1..][i] == s[i + 1];
        }
      }
      WithoutKeepsUpperCased(s[1..], c);
      var r := Without(s, c);
      assert r == (if s[0] == c then [] else [s[0]]) + rest;
      forall i | 0 <= i < |r| ensures UpperChar(r[i]) == r[i] {
        if s[0] != c && i > 0 {
          assert r[i] == rest[i - 1];
        }
      }
    }
  }

  /** The text as a candidate plate: upper case, no spaces, no hyphens. */
  function Normalize(text: string): (plate: string)
    ensures UpperCased(plate)
    ensures ' ' !in plate && '-' !in plate
  {
    var spaced := Without(Upper(text), ' ');
    UpperIsUpperCased(text);
    WithoutKeepsUpperCased(Upper(text), ' ');
    WithoutKeepsUpperCased(spaced, '-');
    WithoutKeepsOthers(Upper(text), ' ');
    WithoutKeepsOthers(spaced, '-');
    assert multiset(spaced)[' '] == 0;
    Without(spaced, '-')
  }

  /** Normalising keeps every character of the upper-cased text except
      spaces and hyphens, as often as it occurs. */
  lemma NormalizeKeepsOthers(text: string)
    ensures forall x :: x != ' ' && x != '-' ==> multiset(Normalize(text))[x] == multiset(Upper(text))[x]
  {
    WithoutKeepsOthers(Upper(text), ' ');
    WithoutKeepsOthers(Without(Upper(text), ' '), '-');
  }

  /** Upper-casing works piece by piece. */
  lemma UpperAppend(a: string, b: string)
    ensures Upper(a + b) == Upper(a) + Upper(b)
  {
    UpperPointwise(a);
    UpperPointwise(b);
    UpperPointwise(a + b);
    assert forall i :: |a| <= i < |a + b| ==> (a + b)[i] == b[i - |a|];
  }

  /** Normalising works piece by piece: together with `NormalizeChar` this
      pins `Normalize` down to "upper-case every character, drop spaces and
      hyphens, keep the order". */
  lemma NormalizeAppend(a: string, b: string)
    ensures Normalize(a + b) == Normalize(a) + Normalize(b)
  {
    UpperAppend(a, b);
    WithoutAppend(Upper(a), Upper(b), ' ');
    WithoutAppend(Without(Upper(a), ' '), Without(Upper(b), ' '), '-');
  }

  /** One character normalises to its upper case, or to nothing when it is a
      space or a hyphen. */
  lemma NormalizeChar(x: char)
    ensures Normalize([x]) == if x == ' ' || x == '-' then [] else [UpperChar(x)]
  {
    var u := UpperChar(x);
    assert Upper([x]) == [u] by {
      UpperPointwise([x]);
    }
    assert u == ' ' <==> x == ' ';
    assert u == '-' <==> x == '-';
    WithoutStep(u, [], ' ');
    WithoutStep(u, [], '-');
    assert [u] + [] == [u];
  }

  predicate Qualifies(d: Detection) {
    |Normalize(d.text)| >= MinPlateLength && d.confidence > MinConfidence
  }

  function Confidence(d: Detection): real {
    d.confidence
  }

  /** The loop over the sorted detections: the first one that qualifies. */
  function FirstQualifying(ds: seq<Detection>): (r: Option<Detection>)
    ensures r.Some? ==> r.value in ds && Qualifies(r.value)
    ensures r.Some? ==> exists k :: 0 <= k < |ds| && ds[k] == r.value && forall i :: 0 <= i < k ==> !Qualifies(ds[i])
    ensures r.None? <==> forall d :: d in ds ==> !Qualifies(d)
  {
    if ds == [] then None
    else if Qualifies(ds[0]) then Some(ds[0])
    else
      assert forall d :: d in ds <==> d == ds[0] || d in ds[1..];
      assert forall k :: 0 <= k < |ds[1..]| ==> ds[1..][k] == ds[k + 1];
      FirstQualifying(ds[1..])
  }

  /** `extract_plate_from_image` once the reader has produced its
      detections. */
  function ExtractPlate(detections: seq<Detection>): (plate: Option<string>)
    ensures plate.None? <==> forall d :: d in detections ==> !Qualifies(d)
    ensures plate.Some? ==>
      && |plate.value| >= MinPlateLength
      && UpperCased(plate.value) && ' ' !in plate.value && '-' !in plate.value
      && exists d :: d in detections && d.confidence > MinConfidence && Normalize(d.text) == plate.value
  {
    if detections == [] then None
    else
      var sorted := SortDesc(detections, Confidence);
      assert forall d :: d in sorted <==> d in detections by {
        assert forall d :: d in sorted <==> d in multiset(sorted);
      }
      match FirstQualifying(sorted)
      case None => None
      case Some(d) => Some(Normalize(d.text))
  }

  /** Reference selection, scanning `ds[k..]`: the index of the qualifying
      detection with the highest confidence, the earliest one among equals. */
  function HighestQualifying(ds: seq<Detection>, k: nat): (r: Option<nat>)
    requires k <= |ds|
    decreases |ds| - k
    ensures r.Some? ==>
      && k <= r.value < |ds| && Qualifies(ds[r.value])
      && (forall i :: k <= i < |ds| && Qualifies(ds[i]) ==> ds[i].confidence <= ds[r.value].confidence)
      && (forall i :: k <= i < r.value && Qualifies(ds[i]) ==> ds[i].confidence < ds[r.value].confidence)
    ensures r.None? <==> forall i :: k <= i < |ds| ==> !Qualifies(ds[i])
  {
    if k == |ds| then None
    else
      var best := HighestQualifying(ds, k + 1);
      if Qualifies(ds[k]) && (best.None? || ds[k].confidence >= ds[best.value].confidence) then Some(k)
      else best
  }

  /** Inserting one detection into a sorted list changes the first qualifying
      one only when the new one qualifies and is at least as confident. */
  lemma {:induction false} FirstQualifyingAfterInsert(x: Detection, s: seq<Detection>)
    requires SortedDesc(s, Confidence)
    ensures var f := FirstQualifying(s);
      FirstQualifying(Insert(x, s, Confidence)) ==
        if Qualifies(x) && (f.None? || x.confidence >= f.value.confidence) then Some(x) else f
  {
    var f := FirstQualifying(s);
    var r := Insert(x, s, Confidence);
    if s == [] || x.confidence >= s[0].confidence {
      assert r == [x] + s && r[1..] == s;
      if f.Some? {
        var k :| 0 <= k < |s| && s[k] == f.value;
        assert s[0].confidence >= s[k].confidence;
      }
    } else {
      assert r == [s[0]] + Insert(x, s[1..], Confidence);
      assert r[1..] == Insert(x, s[1..], Confidence);
      if !Qualifies(s[0]) {
        assert SortedDesc(s[1..], Confidence) by {
          forall i, j | 0 <= i < j < |s[1..]| ensures Confidence(s[1..][i]) >= Confidence(s[1..][j]) {
            assert s[1..][i] == s[i + 1] && s[1..][j] == s[j + 1];
          }
        }
        FirstQualifyingAfterInsert(x, s[1..]);
      }
    }
  }

  /** Stable sorting then scanning picks exactly what the reference picks. */
  lemma {:induction false} SortedScanIsHighest(ds: seq<Detection>, k: nat)
    requires k <= |ds|
    decreases |ds| - k
    ensures FirstQualifying(SortDesc(ds[k..], Confidence)) ==
      match HighestQualifying(ds, k)
      case None => None
      case Some(j) => Some(ds[j])
  {
    if k < |ds| {
      assert ds[k..] == [ds[k]] + ds[k + 1..];
      assert ds[k..][1..] == ds[k + 1..];
      SortedScanIsHighest(ds, k + 1);
      FirstQualifyingAfterInsert(ds[k], SortDesc(ds[k + 1..], Confidence));
    }
  }

  /** The plate comes from the most confident qualifying detection, the
      earliest one when several are equally confident; there is none exactly
      when no detection qualifies. */
  lemma PlateFromMostConfident(ds: seq<Detection>)
    ensures ExtractPlate(ds).None? <==> forall i :: 0 <= i < |ds| ==> !Qualifies(ds[i])
    ensures ExtractPlate(ds).Some? ==>
      exists j ::
        && 0 <= j < |ds| && Qualifies(ds[j])
        && ExtractPlate(ds).value == Normalize(ds[j].text)
        && (forall i :: 0 <= i < |ds| && Qualifies(ds[i]) ==> ds[i].confidence <= ds[j].confidence)
        && (forall i :: 0 <= i < j && Qualifies(ds[i]) ==> ds[i].confidence < ds[j].confidence)
  {
    assert ds[0..] == ds;
    SortedScanIsHighest(ds, 0);
    if ds != [] && HighestQualifying(ds, 0).Some? {
      var j := HighestQualifying(ds, 0).value;
      assert ExtractPlate(ds).value == Normalize(ds[j].text);
    }
  }

  /** A spaced, hyphenated lower-case reading normalises to its plate. */
  lemma NormalizeExample()
    ensures Normalize(" ab-12 34 ") == "AB1234"
  {
    UpperExample();
    SpacesExample();
    HyphensExample();
  }

  lemma UpperExample()
    ensures Upper(" ab-12 34 ") == " AB-12 34 "
  {
    UpperPointwise(" ab-12 34 ");
  }

  lemma SpacesExample()
    ensures Without(" AB-12 34 ", ' ') == "AB-1234"
  {
    DropThreeSpaces('A', 'B', '-', '1', '2', '3', '4');
  }

  /** The spaces of a reading shaped like the example's are dropped, the
      other seven characters kept in order. */
  lemma DropThreeSpaces(a: char, b: char, c: char, d: char, e: char, f: char, g: char)
    requires a != ' ' && b != ' ' && c != ' ' && d != ' ' && e != ' ' && f != ' ' && g != ' '
    ensures Without([' ', a, b, c, d, e, ' ', f, g, ' '], ' ') == [a, b, c, d, e, f, g]
  {
    WithoutStep(' ', [], ' ');
    WithoutStep(g, [' '], ' ');
    WithoutStep(f, [g, ' '], ' ');
    WithoutStep(' ', [f, g, ' '], ' ');
    WithoutStep(e, [' ', f, g, ' '], ' ');
    WithoutStep(d, [e, ' ', f, g, ' '], ' ');
    WithoutStep(c, [d, e, ' ', f, g, ' '], ' ');
    WithoutStep(b, [c, d, e, ' ', f, g, ' '], ' ');
    WithoutStep(a, [b, c, d, e, ' ', f, g, ' '], ' ');
    WithoutStep(' ', [a, b, c, d, e, ' ', f, g, ' '], ' ');
  }

  lemma HyphensExample()
    ensures Without("AB-1234", '-') == "AB1234"
  {
    WithoutAppend("AB", "-1234", '-');
    WithoutAbsent("AB", '-');
    WithoutStep('-', "1234", '-');
    WithoutAbsent("1234", '-');
  }

  lemma WithoutStep(x: char, s: string, c: char)
    ensures Without([x] + s, c) == (if x == c then [] else [x]) + Without(s, c)
  {
  }

  /** That reading, at confidence 0.9, is accepted. */
  lemma AcceptExample()
    ensures ExtractPlate([Detection(" ab-12 34 ", 0.9)]) == Some("AB1234")
  {
    var d := Detection(" ab-12 34 ", 0.9);
    SingleDetection(d);
    NormalizeExample();
  }

  /** With one detection, the plate is that detection's, if it qualifies. */
  lemma SingleDetection(d: Detection)
    ensures ExtractPlate([d]) == if Qualifies(d) then Some(Normalize(d.text)) else None
  {
  }

  /** A three-letter reading is too short, however confident. */
  lemma RejectShortExample()
    ensures ExtractPlate([Detection("abc", 0.9)]) == None
  {
  }

  /** A five-letter reading at confidence 0.4 is too unsure. */
  lemma RejectUnsureExample()
    ensures ExtractPlate([Detection("abcde", 0.4)]) == None
  {
  }
}
