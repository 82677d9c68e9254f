/**
  The demo application's exact-string comparator: each field compared on its trimmed,
  lower-cased text with no yes/no normalisation, a flat penalty per mismatch, and the pole-id
  guess taken from recognised text.
 */
module ExactCompare {
  import opened Wrappers
  import opened AsciiText
  import opened PoleRecords
  import opened PyNum

  /** `str(v).strip().lower()` */
  function Canon(s: string): string {
    Lower(Strip(s))
  }

  /** The two sides' texts for field `f` differ once trimmed and lower-cased. */
  predicate Differs(ai: Record<string>, gis: Record<string>, f: Field) {
    Canon(ai.Get(f)) != Canon(gis.Get(f))
  }

  /** How a mismatch message names each field. */
  function FieldName(f: Field): (name: string)
    ensures name != []
  {
    match f
    case Vegetation => "Vegetation"
    case GuyGuard => "Guy guard"
    case PoleType => "Pole type"
    case ConduitRiser => "Conduit riser"
  }

  /** `f"{name} mismatch: GIS={gis} vs AI={ai}"`, with the raw values. */
  function Message(f: Field, gis: string, ai: string): (msg: string)
    ensures |msg| > |FieldName(f)| && msg[..|FieldName(f)|] == FieldName(f)
  {
    FieldName(f) + " mismatch: GIS=" + gis + " vs AI=" + ai
  }

  /** The message for field `f` of the two records. */
  function MessageFor(ai: Record<string>, gis: Record<string>, f: Field): string {
    Message(f, gis.Get(f), ai.Get(f))
  }

  /** A message starts with its field's name, whose first letter tells the fields apart. */
  lemma MessageNamesField(f: Field, g: Field, gis: string, ai: string, gis': string, ai': string)
    requires Message(f, gis, ai) == Message(g, gis', ai')
    ensures f == g
  {
    assert Message(f, gis, ai)[0] == FieldName(f)[0];
    assert Message(g, gis', ai')[0] == FieldName(g)[0];
  }

  /**
    Which fields' texts differ, one flag per field, so that `Flagged` can list them in comparison
    order; what the listed fields mean is stated by DifferingFieldsContract.
   */
  function DiffFlags(ai: Record<string>, gis: Record<string>): (d: Record<bool>)
    ensures d.Get(Vegetation) == Differs(ai, gis, Vegetation)
    ensures d.Get(GuyGuard) == Differs(ai, gis, GuyGuard)
    ensures d.Get(PoleType) == Differs(ai, gis, PoleType)
    ensures d.Get(ConduitRiser) == Differs(ai, gis, ConduitRiser)
  {
    Record(Differs(ai, gis, Vegetation), Differs(ai, gis, GuyGuard), Differs(ai, gis, PoleType),
      Differs(ai, gis, ConduitRiser))
  }

  /** The fields `compare` reports, in comparison order. */
  function DifferingFields(ai: Record<string>, gis: Record<string>): seq<Field> {
    Flagged(DiffFlags(ai, gis))
  }

  /** The reported fields are in comparison order and are exactly those whose texts differ. */
  lemma DifferingFieldsContract(ai: Record<string>, gis: Record<string>)
    ensures var fs := DifferingFields(ai, gis);
      StrictlyOrdered(fs) && |fs| <= 4 && forall f: Field :: f in fs <==> Differs(ai, gis, f)
  {
    var d := DiffFlags(ai, gis);
    FlaggedContract(d);
    forall f: Field
      ensures d.Get(f) == Differs(ai, gis, f)
    {
      match f
      case Vegetation =>
      case GuyGuard =>
      case PoleType =>
      case ConduitRiser =>
    }
  }

  /** The messages for the fields `fs`, in their order. */
  function Messages(ai: Record<string>, gis: Record<string>, fs: seq<Field>): (msgs: seq<string>)
    ensures |msgs| == |fs|
    ensures forall i :: 0 <= i < |fs| ==> msgs[i] == MessageFor(ai, gis, fs[i])
  {
    if fs == [] then [] else Messages(ai, gis, fs[..|fs| - 1]) + [MessageFor(ai, gis, fs[|fs| - 1])]
  }

  /** Examining one more field adds its message exactly when it is flagged. */
  lemma MessagesKeep(ai: Record<string>, gis: Record<string>, d: Record<bool>, fs: seq<Field>, f: Field)
    ensures Messages(ai, gis, Keep(d, fs, f))
      == Messages(ai, gis, fs) + if d.Get(f) then [MessageFor(ai, gis, f)] else []
  {
    if d.Get(f) {
      assert (fs + [f])[..|fs|] == fs;
    }
  }

  /** A field's message is among the messages exactly when the field is among the fields. */
  lemma MessagesNameFields(ai: Record<string>, gis: Record<string>, fs: seq<Field>, f: Field)
    ensures MessageFor(ai, gis, f) in Messages(ai, gis, fs) <==> f in fs
  {
    var msgs := Messages(ai, gis, fs);
    if MessageFor(ai, gis, f) in msgs {
      var i :| 0 <= i < |msgs| && msgs[i] == MessageFor(ai, gis, f);
      MessageNamesField(f, fs[i], gis.Get(f), ai.Get(f), gis.Get(fs[i]), ai.Get(fs[i]));
    }
    if f in fs {
      var i :| 0 <= i < |fs| && fs[i] == f;
      assert msgs[i] == MessageFor(ai, gis, f);
    }
  }

  /**
    `compare`: one message per differing field, in the order vegetation, guy guard, pole type,
    conduit riser; at most four; a field is reported exactly when its texts differ.
   */
  method Compare(ai: Record<string>, gis: Record<string>) returns (msgs: seq<string>)
    ensures msgs == Messages(ai, gis, DifferingFields(ai, gis))
  {
    ghost var d := DiffFlags(ai, gis);
    ghost var fs: seq<Field> := [];
    msgs := [];
    msgs := CompareField(ai, gis, msgs, Vegetation);
    MessagesKeep(ai, gis, d, fs, Vegetation);
    fs := Keep(d, fs, Vegetation);
    msgs := CompareField(ai, gis, msgs, GuyGuard);
    MessagesKeep(ai, gis, d, fs, GuyGuard);
    fs := Keep(d, fs, GuyGuard);
    msgs := CompareField(ai, gis, msgs, PoleType);
    MessagesKeep(ai, gis, d, fs, PoleType);
    fs := Keep(d, fs, PoleType);
    msgs := CompareField(ai, gis, msgs, ConduitRiser);
    MessagesKeep(ai, gis, d, fs, ConduitRiser);
    fs := Keep(d, fs, ConduitRiser);
  }

  /**
    What `compare` reports: at most four messages, in comparison order, and the message for a
    field is among them exactly when the field's texts differ.
   */
  lemma CompareReports(ai: Record<string>, gis: Record<string>)
    ensures var msgs := Messages(ai, gis, DifferingFields(ai, gis));
      |msgs| <= 4 && forall f: Field :: MessageFor(ai, gis, f) in msgs <==> Differs(ai, gis, f)
  {
    var fs := DifferingFields(ai, gis);
    DifferingFieldsContract(ai, gis);
    forall f: Field
      ensures MessageFor(ai, gis, f) in Messages(ai, gis, fs) <==> Differs(ai, gis, f)
    {
      MessagesNameFields(ai, gis, fs, f);
    }
  }

  /** One comparison of `compare`: the field's message is appended when its texts differ. */
  method CompareField(ai: Record<string>, gis: Record<string>, msgs: seq<string>, f: Field)
    returns (next: seq<string>)
    ensures next == msgs + if Differs(ai, gis, f) then [MessageFor(ai, gis, f)] else []
  {
    next := msgs;
    if Canon(ai.Get(f)) != Canon(gis.Get(f)) {
      next := next + [Message(f, gis.Get(f), ai.Get(f))];
    }
  }

  /** There is no yes/no normalisation: "Y" and "Yes" are different answers. */
  lemma SpellingsOfYesDiffer(ai: Record<string>, gis: Record<string>)
    requires ai.vegetation == "Y" && gis.vegetation == "Yes"
    ensures Differs(ai, gis, Vegetation)
  {
    StripUnchanged("Y");
    StripUnchanged("Yes");
  }

  /** The same text on both sides never mismatches. */
  lemma SameTextAgrees(ai: Record<string>, gis: Record<string>, f: Field)
    requires ai.Get(f) == gis.Get(f)
    ensures !Differs(ai, gis, f)
  {
  }

  // ---------------------------------------------------------------------------
  // Risk score

  /** `str(ai.get("vegetation")).strip().lower() == "yes"` */
  predicate VegetationPresent(ai: Record<string>) {
    Canon(ai.vegetation) == "yes"
  }

  /** `str(ai.get("guy_guard")).strip().lower() == "no"` */
  predicate GuyGuardMissing(ai: Record<string>) {
    Canon(ai.guyGuard) == "no"
  }

  /** `compute_risk`: 100, less 15 for vegetation, 35 for a missing guy guard and 25 per mismatch, clamped to [0, 100]; then the status. */
  function ComputeRisk(ai: Record<string>, mismatches: seq<string>): (r: (int, Status))
    ensures 0 <= r.0 <= 100
    ensures r.1 == StatusOf(r.0)
  {
    var score := 100 - (if VegetationPresent(ai) then 15 else 0) - (if GuyGuardMissing(ai) then 35 else 0)
      - 25 * |mismatches|;
    var score := Clamp100(score);
    var status := if score >= 80 then Ok else if score >= 50 then Warning else HighRisk;
    (score, status)
  }

  /** Every mismatch weighs the same: only how many there are matters. */
  lemma EqualWeighting(ai: Record<string>, a: seq<string>, b: seq<string>)
    requires |a| == |b|
    ensures ComputeRisk(ai, a) == ComputeRisk(ai, b)
  {
  }

  /** More mismatches never raise the score. */
  lemma MoreMismatchesNeverRaiseScore(ai: Record<string>, a: seq<string>, b: seq<string>)
    requires |a| <= |b|
    ensures ComputeRisk(ai, b).0 <= ComputeRisk(ai, a).0
  {
    var base := 100 - (if VegetationPresent(ai) then 15 else 0) - (if GuyGuardMissing(ai) then 35 else 0);
    Clamp100Monotone(base - 25 * |b|, base - 25 * |a|);
  }

  /** With no mismatch the score depends on the two conditions only: 100, 85, 65 or 50. */
  lemma NoMismatchScores(ai: Record<string>)
    ensures ComputeRisk(ai, []).0 in {100, 85, 65, 50}
    ensures ComputeRisk(ai, []).0 == 100 <==> !VegetationPresent(ai) && !GuyGuardMissing(ai)
  {
  }

  // ---------------------------------------------------------------------------
  // Pole-id suggestion from recognised text

  /** Non-empty and free of surrounding whitespace. */
  predicate IsToken(t: string) {
    t != [] && !IsSpace(t[0]) && !IsSpace(t[|t| - 1])
  }

  /** Each piece stripped, the empty ones dropped. */
  function NonEmptyStripped(pieces: seq<string>): (ts: seq<string>)
    ensures forall k :: 0 <= k < |ts| ==> IsToken(ts[k])
    ensures (forall k :: 0 <= k < |pieces| ==> ' ' !in pieces[k]) ==> forall k :: 0 <= k < |ts| ==> ' ' !in ts[k]
  {
    if pieces == [] then []
    else
      var t := Strip(pieces[0]);
      StripChars(pieces[0]);
      if t != [] then [t] + NonEmptyStripped(pieces[1..]) else NonEmptyStripped(pieces[1..])
  }

  /** The pieces of a concatenation give their tokens one after the other. */
  lemma {:induction false} NonEmptyStrippedAppend(a: seq<string>, b: seq<string>)
    ensures NonEmptyStripped(a + b) == NonEmptyStripped(a) + NonEmptyStripped(b)
  {
    if a == [] {
      assert a + b == b;
    } else {
      assert (a + b)[0] == a[0] && (a + b)[1..] == a[1..] + b;
      NonEmptyStrippedAppend(a[1..], b);
    }
  }

  /** One piece gives its stripped text, unless nothing but whitespace is left. */
  lemma NonEmptyStrippedOne(p: string)
    ensures NonEmptyStripped([p]) == if Strip(p) != [] then [Strip(p)] else []
  {
    assert [p][1..] == [];
  }

  /** `[t.strip() for t in text.replace("\n", " ").split(" ") if t.strip()]`: the tokens hold no space. */
  function Tokens(text: string): (ts: seq<string>)
    ensures forall k :: 0 <= k < |ts| ==> IsToken(ts[k]) && ' ' !in ts[k]
  {
    NonEmptyStripped(Split(ReplaceChar(text, '\n', ' '), ' '))
  }

  /** A word of recognised text: a token with no space and no line break inside. */
  predicate IsWord(w: string) {
    IsToken(w) && ' ' !in w && '\n' !in w
  }

  /** Three words separated by a space and a line break give back exactly those words, in order. */
  lemma TokensOfWords(a: string, b: string, c: string)
    requires IsWord(a) && IsWord(b) && IsWord(c)
    ensures Tokens(a + [' '] + b + ['\n'] + c) == [a, b, c]
  {
    assert '\n' !in a + [' '] + b;
    BreakBecomesSpace(a + [' '] + b, c);
    assert a + [' '] + b + [' '] + c == a + [' '] + (b + [' '] + c);
    WordsSplit(a, b, c);
    WordsStripped(a, b, c);
  }

  /** Between two break-free texts, the line break turns into a space. */
  lemma BreakBecomesSpace(a: string, b: string)
    requires '\n' !in a && '\n' !in b
    ensures ReplaceChar(a + ['\n'] + b, '\n', ' ') == a + [' '] + b
  {
    ReplaceCharAppend(a + ['\n'], b, '\n', ' ');
    ReplaceCharAppend(a, ['\n'], '\n', ' ');
    ReplaceCharAbsent(a, '\n', ' ');
    ReplaceCharAbsent(b, '\n', ' ');
  }

  lemma WordsSplit(a: string, b: string, c: string)
    requires ' ' !in a && ' ' !in b && ' ' !in c
    ensures Split(a + [' '] + (b + [' '] + c), ' ') == [a, b, c]
  {
    SplitAppend(a, b + [' '] + c, ' ');
    SplitAppend(b, c, ' ');
    SplitNone(a, ' ');
    SplitNone(b, ' ');
    SplitNone(c, ' ');
  }

  lemma WordsStripped(a: string, b: string, c: string)
    requires IsToken(a) && IsToken(b) && IsToken(c)
    ensures NonEmptyStripped([a, b, c]) == [a, b, c]
  {
    assert [a, b, c] == [a] + [b, c] && [b, c] == [b] + [c];
    NonEmptyStrippedAppend([a], [b, c]);
    NonEmptyStrippedAppend([b], [c]);
    StripUnchanged(a);
    StripUnchanged(b);
    StripUnchanged(c);
    NonEmptyStrippedOne(a);
    NonEmptyStrippedOne(b);
    NonEmptyStrippedOne(c);
  }

  /** A line break separates tokens like a space does. */
  lemma TokensExample()
    ensures Tokens("pole P12\nok") == ["pole", "P12", "ok"]
  {
    var a, b, c := "pole", "P12", "ok";
    assert IsWord(a) && IsWord(b) && IsWord(c);
    TokensOfWords(a, b, c);
    assert "pole P12\nok" == a + [' '] + b + ['\n'] + c;
  }

  /** Some character is a digit: `any(ch.isdigit() for ch in tok)`. */
  predicate HasDigit(s: string) {
    exists i :: 0 <= i < |s| && IsDigit(s[i])
  }

  /** `tok.upper().startswith("P") and any(ch.isdigit() for ch in tok)` */
  predicate LooksLikePoleId(tok: string) {
    tok != [] && UpperChar(tok[0]) == 'P' && HasDigit(tok)
  }

  /** `c.upper() == "P" or c.isdigit()` */
  predicate Kept(c: char) {
    UpperChar(c) == 'P' || IsDigit(c)
  }

  /** `"".join([c for c in tok if c.upper() == "P" or c.isdigit()])` */
  function KeepPoleIdChars(tok: string): (r: string)
    ensures forall i :: 0 <= i < |r| ==> Kept(r[i])
    ensures |r| <= |tok|
    ensures tok != [] && Kept(tok[0]) ==> r != [] && r[0] == tok[0]
    ensures HasDigit(tok) ==> HasDigit(r)
  {
    if tok == [] then []
    else
      var rest := KeepPoleIdChars(tok[1..]);
      var r := if Kept(tok[0]) then [tok[0]] + rest else rest;
      assert HasDigit(tok) ==> HasDigit(r) by {
        if HasDigit(tok) {
          if IsDigit(tok[0]) {
            assert IsDigit(r[0]);
          } else {
            var i :| 0 <= i < |tok| && IsDigit(tok[i]);
            assert IsDigit(tok[1..][i - 1]);
            var j :| 0 <= j < |rest| && IsDigit(rest[j]);
            assert IsDigit(r[|r| - |rest| + j]);
          }
        }
      }
      r
  }

  /** The kept characters of a concatenation are those of each part, in order. */
  lemma {:induction false} KeepPoleIdCharsAppend(a: string, b: string)
    ensures KeepPoleIdChars(a + b) == KeepPoleIdChars(a) + KeepPoleIdChars(b)
  {
    if a == [] {
      assert a + b == b;
    } else {
      assert (a + b)[0] == a[0] && (a + b)[1..] == a[1..] + b;
      KeepPoleIdCharsAppend(a[1..], b);
    }
  }

  /** One character is kept exactly when it is 'P', 'p' or a digit. */
  lemma KeepPoleIdCharsOne(c: char)
    ensures KeepPoleIdChars([c]) == if Kept(c) then [c] else []
  {
    assert [c][1..] == [];
  }

  /** What the suggestion returns: `clean.upper()`. */
  function CleanPoleId(tok: string): string {
    Upper(KeepPoleIdChars(tok))
  }

  /** A suggested id is 'P' followed by characters each 'P' or a digit, with at least one digit. */
  predicate PoleIdShape(s: string) {
    s != [] && s[0] == 'P' && HasDigit(s) && forall i :: 0 <= i < |s| ==> s[i] == 'P' || IsDigit(s[i])
  }

  /** Cleaning a token that looks like a pole id gives a pole-id shape. */
  lemma CleanShape(tok: string)
    requires LooksLikePoleId(tok)
    ensures PoleIdShape(CleanPoleId(tok))
  {
    var kept := KeepPoleIdChars(tok);
    var r := Upper(kept);
    assert Kept(tok[0]);
    var i :| 0 <= i < |kept| && IsDigit(kept[i]);
    assert IsDigit(r[i]);
    forall j | 0 <= j < |r|
      ensures r[j] == 'P' || IsDigit(r[j])
    {
      assert Kept(kept[j]);
    }
  }

  /** The position of the first token that looks like a pole id, or `|tokens|` when there is none. */
  function FirstPoleIdToken(tokens: seq<string>): (k: nat)
    ensures k <= |tokens|
    ensures k < |tokens| ==> LooksLikePoleId(tokens[k])
    ensures forall j :: 0 <= j < k ==> !LooksLikePoleId(tokens[j])
  {
    if tokens == [] || LooksLikePoleId(tokens[0]) then 0
    else
      var k := FirstPoleIdToken(tokens[1..]);
      assert forall j :: 1 <= j < k + 1 ==> tokens[j] == tokens[1..][j - 1];
      k + 1
  }

  /**
    The suggestion: the cleaned first token that looks like a pole id, every earlier token does
    not; `None` exactly when no token looks like one.
   */
  function Suggestion(tokens: seq<string>): (r: Option<string>)
    ensures r.None? <==> forall k :: 0 <= k < |tokens| ==> !LooksLikePoleId(tokens[k])
    ensures r.Some? ==>
      exists k ::
        0 <= k < |tokens| && LooksLikePoleId(tokens[k]) && r.value == CleanPoleId(tokens[k]) &&
        (forall j :: 0 <= j < k ==> !LooksLikePoleId(tokens[j]))
  {
    var k := FirstPoleIdToken(tokens);
    if k < |tokens| then Some(CleanPoleId(tokens[k])) else None
  }

  /** Any suggestion starts with 'P', holds a digit and holds nothing but 'P's and digits. */
  lemma SuggestionShape(tokens: seq<string>)
    ensures Suggestion(tokens).Some? ==> PoleIdShape(Suggestion(tokens).value)
  {
    var k := FirstPoleIdToken(tokens);
    if k < |tokens| {
      CleanShape(tokens[k]);
    }
  }

  /**
    The token loop of `suggest_pole_id_from_image` over the recognised text: the first token that
    starts with 'P' or 'p' and holds a digit, kept to its 'P's and digits and upper-cased.
   */
  method SuggestPoleId(text: string) returns (r: Option<string>)
    ensures r == Suggestion(Tokens(text))
  {
    var tokens := Tokens(text);
    var k := 0;
    while k < |tokens|
      invariant 0 <= k <= |tokens|
      invariant forall j :: 0 <= j < k ==> !LooksLikePoleId(tokens[j])
    {
      var tok := tokens[k];
      if UpperChar(tok[0]) == 'P' && HasDigit(tok) {
        return Some(CleanPoleId(tok));
      }
      k := k + 1;
    }
    return None;
  }
}
