/**
  The post-detection rules of the infrastructure detector: which recognised text becomes the
  tag, which detector labels set the pole type and the vegetation flag, the pole id taken from
  the image's file name, and the upsert of the attributes into the GIS table.
 */
module InfraDetect {
  import opened Wrappers
  import opened AsciiText
  import opened PyNum
  import opened OcrTag

  // ---------------------------------------------------------------------------
  // Tag candidates

  /** A character the recognised text keeps: `c.isalnum() or c == '-'`. */
  predicate IsKept(c: char) {
    IsAlnum(c) || c == '-'
  }

  /** `''.join([c for c in text if c.isalnum() or c == '-'])` */
  function FilterChars(text: string): (r: string)
    ensures |r| <= |text|
    ensures forall i :: 0 <= i < |r| ==> IsKept(r[i])
  {
    if text == [] then []
    else (if IsKept(text[0]) then [text[0]] else []) + FilterChars(text[1..])
  }

  /** Filtering is idempotent: filtered text is left as it is. */
  lemma {:induction false} FilterCharsIdempotent(text: string)
    ensures FilterChars(FilterChars(text)) == FilterChars(text)
  {
    FilterKeeps(FilterChars(text));
  }

  /** Filtering works piece by piece: the filtered concatenation is the concatenation of the filtered parts. */
  lemma {:induction false} FilterCharsAppend(a: string, b: string)
    ensures FilterChars(a + b) == FilterChars(a) + FilterChars(b)
  {
    if a == [] {
      assert a + b == b;
    } else {
      assert (a + b)[0] == a[0] && (a + b)[1..] == a[1..] + b;
      FilterCharsAppend(a[1..], b);
    }
  }

  /** One character is kept exactly when it is a letter, a digit or '-'. */
  lemma FilterCharsOne(c: char)
    ensures FilterChars([c]) == if IsKept(c) then [c] else []
  {
    assert [c][1..] == [];
  }

  /** A space between a letter pair and a digit pair is dropped. */
  lemma FilterExample()
    ensures FilterChars("AB 12") == "AB12"
  {
    var letters, digits := "AB", "12";
    assert "AB 12" == letters + ([' '] + digits);
    assert IsKept(letters[0]) && IsKept(letters[1]) && IsKept(digits[0]) && IsKept(digits[1]);
    FilterKeeps(letters);
    FilterKeeps(digits);
    FilterCharsAppend(letters, [' '] + digits);
    FilterCharsAppend([' '], digits);
    FilterCharsOne(' ');
    assert letters + digits == "AB12";
  }

  /** Text made only of kept characters passes the filter unchanged. */
  lemma {:induction false} FilterKeeps(s: string)
    requires forall i :: 0 <= i < |s| ==> IsKept(s[i])
    ensures FilterChars(s) == s
  {
    if s != [] {
      FilterKeeps(s[1..]);
    }
  }

  /** A tag candidate: filtered text and the recogniser's confidence. */
  datatype Candidate = Candidate(text: string, conf: real)

  /** The shortest text that becomes a candidate. */
  const MinCandidateLength: nat := 4

  /** The candidates one box's results contribute, in order. */
  function BoxCandidates(results: seq<OcrResult>): (cs: seq<Candidate>)
    ensures forall i :: 0 <= i < |cs| ==> |cs[i].text| >= MinCandidateLength
    ensures forall i :: 0 <= i < |cs| ==> forall j :: 0 <= j < |cs[i].text| ==> IsKept(cs[i].text[j])
  {
    if results == [] then []
    else
      var init := BoxCandidates(results[..|results| - 1]);
      var last := results[|results| - 1];
      var filtered := FilterChars(last.text);
      if |filtered| >= MinCandidateLength then init + [Candidate(filtered, last.conf)] else init
  }

  /** The candidates of all boxes, box after box. */
  function AllCandidates(boxes: seq<Box>): (cs: seq<Candidate>)
    ensures forall i :: 0 <= i < |cs| ==> |cs[i].text| >= MinCandidateLength
    ensures forall i :: 0 <= i < |cs| ==> forall j :: 0 <= j < |cs[i].text| ==> IsKept(cs[i].text[j])
  {
    if boxes == [] then [] else AllCandidates(boxes[..|boxes| - 1]) + BoxCandidates(boxes[|boxes| - 1].ocr)
  }

  /** The accumulation over boxes and their recognised results into `ocr_candidates`. */
  method CollectCandidates(boxes: seq<Box>) returns (cands: seq<Candidate>)
    ensures cands == AllCandidates(boxes)
  {
    cands := [];
    for b := 0 to |boxes|
      invariant cands == AllCandidates(boxes[..b])
    {
      var results := boxes[b].ocr;
      ghost var before := cands;
      for r := 0 to |results|
        invariant cands == before + BoxCandidates(results[..r])
      {
        assert results[..r + 1][..r] == results[..r];
        var filtered := FilterChars(results[r].text);
        if |filtered| >= MinCandidateLength {
          cands := cands + [Candidate(filtered, results[r].conf)];
        }
      }
      assert results[..|results|] == results;
      assert boxes[..b + 1][..b] == boxes[..b];
    }
    assert boxes[..|boxes|] == boxes;
  }

  /** `max(len(x[0]) for x in ocr_candidates)` */
  function MaxLen(cands: seq<Candidate>): (n: nat)
    requires cands != []
    ensures forall i :: 0 <= i < |cands| ==> |cands[i].text| <= n
    ensures exists i :: 0 <= i < |cands| && |cands[i].text| == n
  {
    if |cands| == 1 then |cands[0].text|
    else
      var rest := MaxLen(cands[1..]);
      assert forall i :: 1 <= i < |cands| ==> cands[i] == cands[1..][i - 1];
      if |cands[0].text| >= rest then |cands[0].text| else rest
  }

  /**
    `max([x for x in ocr_candidates if len(x[0]) == n], key=lambda x: x[1])`: among the
    candidates of length `n`, the first of highest confidence.
   */
  function MostConfidentOfLength(cands: seq<Candidate>, n: nat): (best: Option<nat>)
    ensures best.None? <==> forall i :: 0 <= i < |cands| ==> |cands[i].text| != n
    ensures best.Some? ==>
      && best.value < |cands| && |cands[best.value].text| == n
      && (forall j :: 0 <= j < |cands| && |cands[j].text| == n ==> cands[j].conf <= cands[best.value].conf)
      && (forall j :: 0 <= j < best.value && |cands[j].text| == n ==> cands[j].conf < cands[best.value].conf)
  {
    if cands == [] then None
    else
      var rest := MostConfidentOfLength(cands[1..], n);
      assert forall i :: 1 <= i < |cands| ==> cands[i] == cands[1..][i - 1];
      if |cands[0].text| != n then
        if rest.None? then None else Some(rest.value + 1)
      else if rest.None? || cands[0].conf >= cands[1..][rest.value].conf then Some(0)
      else Some(rest.value + 1)
  }

  /** `f"{text} (Conf: {conf:.2f})"` */
  function FromOcr(c: Candidate): string {
    c.text + " (Conf: " + FormatFixed2(c.conf) + ")"
  }

  /**
    The tag choice: the longest candidate, the most confident among the longest, the first among
    those; `tag_name` is its text and `from_ocr` its text with the confidence. Both are empty when
    there is no candidate.
   */
  function ChooseTag(cands: seq<Candidate>): (r: (string, string))
    ensures cands == [] <==> r == ("", "")
    ensures cands != [] ==>
      exists k ::
        && 0 <= k < |cands| && r == (cands[k].text, FromOcr(cands[k]))
        && (forall j :: 0 <= j < |cands| ==> |cands[j].text| <= |cands[k].text|)
        && (forall j :: 0 <= j < |cands| && |cands[j].text| == |cands[k].text| ==> cands[j].conf <= cands[k].conf)
        && (forall j :: 0 <= j < k && |cands[j].text| == |cands[k].text| ==> cands[j].conf < cands[k].conf)
  {
    if cands == [] then ("", "")
    else
      var n := MaxLen(cands);
      var k := MostConfidentOfLength(cands, n).value;
      assert |cands[k].text| >= MinCandidateLength || FromOcr(cands[k]) != "";
      (cands[k].text, FromOcr(cands[k]))
  }

  // ---------------------------------------------------------------------------
  // Labels

  /** The pole type a label maps to: `'wood'`, `'metal'`, or none, the empty `mapped_type`. */
  datatype PoleType = Unmapped | Wood | Metal {
    function Name(): string {
      match this
      case Unmapped => ""
      case Wood => "wood"
      case Metal => "metal"
    }
  }

  /** Wood for a wood-like label, metal for a metal one, none for any other. */
  function MappedType(className: string): PoleType {
    var l := Lower(className);
    if l == "wood" || l == "wooden" || l == "composite" then Wood
    else if l == "steel" || l == "metal" then Metal
    else Unmapped
  }

  /** The type of the first label that maps to one. */
  function FirstMapped(labels: seq<string>): PoleType {
    if labels == [] then Unmapped
    else if MappedType(labels[0]) != Unmapped then MappedType(labels[0])
    else FirstMapped(labels[1..])
  }

  /**
    The type found is that of a label with every earlier label unmapped, and none is found exactly
    when no label maps.
   */
  lemma {:induction false} FirstMappedIsFirst(labels: seq<string>)
    ensures var t := FirstMapped(labels);
      && (t == Unmapped <==> forall i :: 0 <= i < |labels| ==> MappedType(labels[i]) == Unmapped)
      && (t != Unmapped ==>
        exists i :: 0 <= i < |labels| && MappedType(labels[i]) == t &&
          forall j :: 0 <= j < i ==> MappedType(labels[j]) == Unmapped)
  {
    if labels != [] && MappedType(labels[0]) == Unmapped {
      var rest := labels[1..];
      FirstMappedIsFirst(rest);
      assert forall i :: 1 <= i < |labels| ==> labels[i] == rest[i - 1];
      if FirstMapped(rest) != Unmapped {
        var i :| 0 <= i < |rest| && MappedType(rest[i]) == FirstMapped(rest) &&
          forall j :: 0 <= j < i ==> MappedType(rest[j]) == Unmapped;
        assert MappedType(labels[i + 1]) == FirstMapped(labels);
      }
    } else if labels != [] {
      assert MappedType(labels[0]) == FirstMapped(labels);
    }
  }

  /** Once a label has set the pole type, later labels never overwrite it. */
  lemma {:induction false} FirstMappedAppend(labels: seq<string>, className: string)
    ensures FirstMapped(labels + [className]) == if FirstMapped(labels) != Unmapped then FirstMapped(labels) else MappedType(className)
  {
    if labels != [] {
      FirstMappedAppend(labels[1..], className);
      assert (labels + [className])[1..] == labels[1..] + [className];
    }
  }

  /** `'vegetation' in label.lower()` */
  predicate MentionsVegetation(className: string) {
    Contains(Lower(className), "vegetation")
  }

  /** Some label mentions vegetation. */
  function AnyVegetation(labels: seq<string>): (b: bool)
    ensures b <==> exists i :: 0 <= i < |labels| && MentionsVegetation(labels[i])
  {
    if labels == [] then false
    else
      var init := labels[..|labels| - 1];
      assert forall i :: 0 <= i < |init| ==> init[i] == labels[i];
      AnyVegetation(init) || MentionsVegetation(labels[|labels| - 1])
  }

  /** A detected box: what the recogniser read in it and the detector's label for it. */
  datatype Box = Box(ocr: seq<OcrResult>, className: string)

  /** The labels of the boxes, in detection order. */
  function Labels(boxes: seq<Box>): (ls: seq<string>)
    ensures |ls| == |boxes|
    ensures forall i :: 0 <= i < |boxes| ==> ls[i] == boxes[i].className
  {
    if boxes == [] then [] else Labels(boxes[..|boxes| - 1]) + [boxes[|boxes| - 1].className]
  }

  /**
    The label loop and the default: the pole type of the first label that maps to one, wood when
    none does; vegetation exactly when some label mentions it.
   */
  method MapLabels(labels: seq<string>) returns (poleType: PoleType, vegetation: bool)
    ensures poleType == if FirstMapped(labels) == Unmapped then Wood else FirstMapped(labels)
    ensures vegetation == AnyVegetation(labels)
  {
    poleType := Unmapped;
    vegetation := false;
    for i := 0 to |labels|
      invariant poleType == FirstMapped(labels[..i])
      invariant vegetation == AnyVegetation(labels[..i])
    {
      MapLabelStep(labels, i);
      poleType, vegetation := MapLabel(poleType, vegetation, labels[i]);
    }
    assert labels[..|labels|] == labels;
    if poleType == Unmapped {
      poleType := Wood;
    }
  }

  /** One label of the loop: it sets the pole type when none is set yet and may raise the vegetation flag. */
  method MapLabel(poleType: PoleType, vegetation: bool, className: string) returns (poleType': PoleType, vegetation': bool)
    ensures poleType' == if poleType != Unmapped then poleType else MappedType(className)
    ensures vegetation' == (vegetation || MentionsVegetation(className))
  {
    poleType', vegetation' := poleType, vegetation;
    var mapped := MappedType(className);
    if mapped != Unmapped && poleType == Unmapped {
      poleType' := mapped;
    }
    if MentionsVegetation(className) {
      vegetation' := true;
    }
  }

  /** The prefix functions extended by one label. */
  lemma MapLabelStep(labels: seq<string>, i: nat)
    requires i < |labels|
    ensures FirstMapped(labels[..i + 1]) ==
      if FirstMapped(labels[..i]) != Unmapped then FirstMapped(labels[..i]) else MappedType(labels[i])
    ensures AnyVegetation(labels[..i + 1]) == (AnyVegetation(labels[..i]) || MentionsVegetation(labels[i]))
  {
    FirstMappedAppend(labels[..i], labels[i]);
    assert labels[..i + 1] == labels[..i] + [labels[i]];
    assert labels[..i + 1][..i] == labels[..i];
  }

  // ---------------------------------------------------------------------------
  // Pole id from the file name

  /** The index of the last `c` in `s`, if any. */
  function LastIndex(s: string, c: char): (k: Option<nat>)
    ensures k.None? <==> c !in s
    ensures k.Some? ==> k.value < |s| && s[k.value] == c && c !in s[k.value + 1..]
  {
    if s == [] then None
    else if s[|s| - 1] == c then Some(|s| - 1)
    else
      var init := s[..|s| - 1];
      var k := LastIndex(init, c);
      assert s == init + [s[|s| - 1]];
      if k.Some? then
        assert s[k.value + 1..] == init[k.value + 1..] + [s[|s| - 1]];
        k
      else
        k
  }

  /** `os.path.basename`: what follows the last '/'. */
  function Basename(path: string): (b: string)
    ensures '/' !in b
    ensures |b| <= |path| && b == path[|path| - |b|..]
    ensures |b| == |path| || path[|path| - |b| - 1] == '/'
  {
    match LastIndex(path, '/')
    case None => path
    case Some(k) => path[k + 1..]
  }

  /** Some character before position `k` is not a dot. */
  predicate HasNonDotBefore(s: string, k: nat)
    requires k <= |s|
  {
    exists i :: 0 <= i < k && s[i] != '.'
  }

  /**
    `os.path.splitext(name)[0]`: the name without its extension, the extension running from the
    last dot; dots that only lead the name do not start an extension.
   */
  function Stem(name: string): (stem: string)
    ensures |stem| <= |name| && stem == name[..|stem|]
    ensures stem == name <==> forall k :: 0 <= k < |name| && name[k] == '.' ==> !HasNonDotBefore(name, k)
    ensures stem != name ==>
      && name[|stem|] == '.' && '.' !in name[|stem| + 1..] && HasNonDotBefore(name, |stem|)
  {
    match LastIndex(name, '.')
    case None => name
    case Some(k) => if HasNonDotBefore(name, k) then name[..k] else name
  }

  /** `os.path.splitext(os.path.basename(image_path))[0]` */
  function PoleIdFromPath(path: string): string {
    Stem(Basename(path))
  }

  /**
    The pole id taken from a path holds no '/'. It is the file name itself exactly when no dot of
    the name follows a non-dot character; otherwise it is the file name less the extension that
    starts at its last dot, and it keeps a non-dot character.
   */
  lemma PoleIdShape(path: string)
    ensures var name := Basename(path);
      var id := PoleIdFromPath(path);
      && '/' !in id
      && (id == name <==> forall k :: 0 <= k < |name| && name[k] == '.' ==> !HasNonDotBefore(name, k))
      && (id != name ==> name[|id|] == '.' && '.' !in name[|id| + 1..] && id != [] && exists i :: 0 <= i < |id| && id[i] != '.')
  {
    var name := Basename(path);
    var id := Stem(name);
    assert id == PoleIdFromPath(path);
    PrefixLacks(name, |id|, '/');
    if id != name {
      assert HasNonDotBefore(name, |id|);
      var i :| 0 <= i < |id| && name[i] != '.';
      assert id[i] == name[i];
    }
  }

  /** A prefix of a text that lacks a character lacks it too. */
  lemma PrefixLacks(s: string, n: nat, c: char)
    requires n <= |s| && c !in s
    ensures c !in s[..n]
  {
    forall i | 0 <= i < n
      ensures s[..n][i] != c
    {
      assert s[..n][i] == s[i];
    }
  }

  /** The last occurrence is the one with no occurrence after it. */
  lemma LastIndexAt(s: string, c: char, k: nat)
    requires k < |s| && s[k] == c && c !in s[k + 1..]
    ensures LastIndex(s, c) == Some(k)
  {
    assert c in s;
  }

  /** A directory and one extension go. */
  lemma PoleIdExample()
    ensures PoleIdFromPath("site/P17.jpg") == "P17"
  {
    BasenameExample();
    StemExample();
  }

  lemma BasenameExample()
    ensures Basename("site/P17.jpg") == "P17.jpg"
  {
    var p := "site/P17.jpg";
    LastIndexAt(p, '/', 4);
  }

  lemma StemExample()
    ensures Stem("P17.jpg") == "P17"
  {
    var n := "P17.jpg";
    LastIndexAt(n, '.', 3);
    assert HasNonDotBefore(n, 3) by {
      assert n[0] != '.';
    }
  }

  /** A leading dot does not start an extension. */
  lemma HiddenNameKept()
    ensures PoleIdFromPath(".hidden") == ".hidden"
  {
    var h := ".hidden";
    assert '/' !in h;
    LastIndexAt(h, '.', 0);
  }

  // ---------------------------------------------------------------------------
  // Detection result

  /** The attributes the detector returns. */
  datatype Attributes = Attributes(poleId: string, tagName: string, poleType: PoleType, vegetation: bool, fromOcr: string)

  /**
    `detect_infrastructure_attributes` after detection and recognition: the given pole id or the
    file's stem, the tag choice over all boxes' candidates, and the className rules.
   */
  method DetectAttributes(imagePath: string, poleId: Option<string>, boxes: seq<Box>) returns (attrs: Attributes)
    ensures attrs.poleId == if poleId.Some? then poleId.value else PoleIdFromPath(imagePath)
    ensures (attrs.tagName, attrs.fromOcr) == ChooseTag(AllCandidates(boxes))
    ensures attrs.poleType == if FirstMapped(Labels(boxes)) == Unmapped then Wood else FirstMapped(Labels(boxes))
    ensures attrs.poleType != Unmapped
    ensures attrs.vegetation == AnyVegetation(Labels(boxes))
  {
    var id := if poleId.None? then PoleIdFromPath(imagePath) else poleId.value;
    var cands := CollectCandidates(boxes);
    var chosen := ChooseTag(cands);
    var labels := Labels(boxes);
    var poleType, vegetation := MapLabels(labels);
    attrs := Attributes(id, chosen.0, poleType, vegetation, chosen.1);
  }
}
