/**
  The asset-tag reader of the preprocessing script: from the recogniser's (text, confidence)
  results it picks the first cleaned text that looks like a tag, then looks the tag up in the
  mock GIS database.
 */
module OcrTag {
  import opened Wrappers
  import opened AsciiText

  /** One recogniser result: the text read and the recogniser's confidence in it. */
  datatype OcrResult = OcrResult(text: string, conf: real)

  /** `text.strip().replace(" ", "")` */
  function Cleaned(text: string): (r: string)
    ensures ' ' !in r && |r| <= |text|
  {
    RemoveChar(Strip(text), ' ')
  }

  /** Surrounding spaces go, and so does the space inside: " AB 12 " is read as "AB12". */
  lemma CleanedExample()
    ensures Cleaned(" AB 12 ") == "AB12"
  {
    var s := " AB 12 ";
    assert SpanStart(s, 1) == 1 && SpanStart(s, 0) == 1;
    assert SpanEnd(s, 1, 6) == 6 && SpanEnd(s, 1, 7) == 6;
    var letters, digits := "AB", "12";
    assert Strip(s) == letters + ([' '] + digits);
    RemoveCharAppend(letters, [' '] + digits, ' ');
    RemoveCharAppend([' '], digits, ' ');
    RemoveCharOne(' ', ' ');
    RemoveAbsent(letters, ' ');
    RemoveAbsent(digits, ' ');
    assert letters + digits == "AB12";
  }

  /** A character of the class `[A-Z0-9\-]`. */
  predicate IsTagChar(c: char) {
    IsUpperLetter(c) || IsDigit(c) || c == '-'
  }

  /** `re.match(r'^[A-Z0-9\-]{4,10}$', s)` */
  predicate IsTagText(s: string) {
    4 <= |s| <= 10 && forall i :: 0 <= i < |s| ==> IsTagChar(s[i])
  }

  /** The confidence a result must exceed. */
  const Threshold: real := 0.4

  /** `confidence > 0.4 and re.match(...)`: the result is taken as the tag. */
  predicate Accepted(r: OcrResult) {
    r.conf > Threshold && IsTagText(Cleaned(r.text))
  }

  /** The position of the first accepted result, or `|results|` when there is none. */
  function FirstAccepted(results: seq<OcrResult>): (k: nat)
    ensures k <= |results|
    ensures k < |results| ==> Accepted(results[k])
    ensures forall j :: 0 <= j < k ==> !Accepted(results[j])
  {
    if results == [] || Accepted(results[0]) then 0
    else
      var k := FirstAccepted(results[1..]);
      assert forall j :: 1 <= j < k + 1 ==> results[j] == results[1..][j - 1];
      k + 1
  }

  /**
    `extract_tag_number`: the cleaned text of the first accepted result; every earlier result is
    rejected, and there is no tag exactly when no result is accepted.
   */
  function ExtractTagNumber(results: seq<OcrResult>): (tag: Option<string>)
    ensures tag.None? <==> forall k :: 0 <= k < |results| ==> !Accepted(results[k])
    ensures tag.Some? ==>
      exists k ::
        0 <= k < |results| && Accepted(results[k]) && tag.value == Cleaned(results[k].text) &&
        (forall j :: 0 <= j < k ==> !Accepted(results[j]))
  {
    var k := FirstAccepted(results);
    if k < |results| then Some(Cleaned(results[k].text)) else None
  }

  /**
    A tag is 4 to 10 characters of A-Z, 0-9 and '-': no space, no surrounding whitespace and no
    lower-case letter.
   */
  lemma TagShape(results: seq<OcrResult>)
    ensures var tag := ExtractTagNumber(results);
      tag.Some? ==>
        && IsTagText(tag.value)
        && ' ' !in tag.value
        && !IsSpace(tag.value[0]) && !IsSpace(tag.value[|tag.value| - 1])
        && forall i :: 0 <= i < |tag.value| ==> !IsLowerLetter(tag.value[i])
  {
    var tag := ExtractTagNumber(results);
    if tag.Some? {
      var k := FirstAccepted(results);
      assert tag.value == Cleaned(results[k].text);
      assert IsTagChar(tag.value[0]) && IsTagChar(tag.value[|tag.value| - 1]);
      assert forall i :: 0 <= i < |tag.value| ==> IsTagChar(tag.value[i]);
    }
  }

  /** The threshold is strict: a result read with confidence exactly 0.4 is never the tag. */
  lemma ThresholdIsStrict(results: seq<OcrResult>)
    requires forall k :: 0 <= k < |results| ==> results[k].conf <= 0.4
    ensures ExtractTagNumber(results) == None
  {
  }

  /** A text that is already a tag is read back as itself once the recogniser is confident enough. */
  lemma {:induction false} TagReadBack(tag: string, conf: real)
    requires IsTagText(tag) && conf > 0.4
    ensures ExtractTagNumber([OcrResult(tag, conf)]) == Some(tag)
  {
    assert IsTagChar(tag[0]) && IsTagChar(tag[|tag| - 1]);
    StripUnchanged(tag);
    RemoveAbsent(tag, ' ');
  }

  // ---------------------------------------------------------------------------
  // Mock GIS database

  /** A database record: asset type, location and status. */
  datatype AssetRecord = AssetRecord(kind: string, location: string, status: string)

  /** `GIS_DATABASE` */
  const GisDatabase: map<string, AssetRecord> := map[
    "444194" := AssetRecord("Wood Pole", "123 Main St, Richmond VA", "Active"),
    "625296" := AssetRecord("Wood Pole", "456 Elm St, Richmond VA", "Active"),
    "PD41459" := AssetRecord("Pad Mount", "789 Oak Ave, Richmond VA", "Active"),
    "D-8176" := AssetRecord("Metal Pad", "321 Pine Rd, Richmond VA", "Active")
  ]

  /** What the script reports: no tag, a tag to review by hand, or the tag's record. */
  datatype Lookup = NoTag | FlagForReview(tag: string) | Found(tag: string, record: AssetRecord)

  /** The tag, then `GIS_DATABASE.get(tag)` by exact key. */
  function LookupTag(results: seq<OcrResult>): (r: Lookup)
    ensures r == NoTag <==> ExtractTagNumber(results).None?
    ensures r.FlagForReview? ==> ExtractTagNumber(results) == Some(r.tag) && r.tag !in GisDatabase
    ensures r.Found? ==> ExtractTagNumber(results) == Some(r.tag) && r.tag in GisDatabase && r.record == GisDatabase[r.tag]
  {
    match ExtractTagNumber(results)
    case None => NoTag
    case Some(tag) => if tag in GisDatabase then Found(tag, GisDatabase[tag]) else FlagForReview(tag)
  }

  /** Every database key is itself tag text, so each record can be reached by reading its key. */
  lemma {:induction false} KeysAreTags(conf: real)
    requires conf > 0.4
    ensures forall key :: key in GisDatabase ==> IsTagText(key)
    ensures forall key :: key in GisDatabase ==> LookupTag([OcrResult(key, conf)]) == Found(key, GisDatabase[key])
  {
    assert GisDatabase.Keys == {"444194", "625296", "PD41459", "D-8176"};
    forall key | key in GisDatabase
      ensures IsTagText(key) && LookupTag([OcrResult(key, conf)]) == Found(key, GisDatabase[key])
    {
      assert IsTagText(key) by {
        if key == "444194" {
          assert key[0] == '4' && key[1] == '4' && key[2] == '4' && key[3] == '1' && key[4] == '9' && key[5] == '4';
        } else if key == "625296" {
          assert key[0] == '6' && key[1] == '2' && key[2] == '5' && key[3] == '2' && key[4] == '9' && key[5] == '6';
        } else if key == "PD41459" {
          assert key[0] == 'P' && key[1] == 'D' && key[2] == '4' && key[3] == '1' && key[4] == '4' && key[5] == '5' && key[6] == '9';
        } else {
          assert key == "D-8176";
          assert key[0] == 'D' && key[1] == '-' && key[2] == '8' && key[3] == '1' && key[4] == '7' && key[5] == '6';
        }
      }
      TagReadBack(key, conf);
    }
  }
}
