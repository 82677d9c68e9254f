/**
  The reconciliation engine: normalises the yes/no and pole-type fields of a GIS row and of an
  AI observation, lists the fields on which they disagree with a severity, and turns the
  observation and that list into a risk score, a status and an assessment.
 */
module GisReconcile {
  import opened Wrappers
  import opened AsciiText
  import opened PoleRecords
  import opened PyNum

  /** A raw field value; `None` when the key is absent or the cell is NaN. */
  type Cell = Option<string>

  /** The normalised yes/no value: "yes", "no" or "unknown". */
  datatype Tri = Yes | No | Unknown

  const TrueTokens: set<string> := {"yes", "y", "true", "1", "t"}
  const FalseTokens: set<string> := {"no", "n", "false", "0", "f"}

  /** `str(val).strip().lower()` */
  function Key(s: string): string {
    Lower(Strip(s))
  }

  /** `normalize_bool` */
  function NormalizeBool(v: Cell): (r: Tri)
    ensures v.None? ==> r == Unknown
    ensures r == Yes <==> v.Some? && Key(v.value) in TrueTokens
    ensures r == No <==> v.Some? && Key(v.value) in FalseTokens
  {
    if v.None? then Unknown
    else
      var s := Key(v.value);
      if s in TrueTokens then Yes
      else if s in FalseTokens then No
      else Unknown
  }

  /** Spelling, case and surrounding blanks do not matter. */
  lemma YesExamples()
    ensures NormalizeBool(Some(" Y ")) == Yes && NormalizeBool(Some("TRUE")) == Yes
  {
    assert " Y "[1..] == "Y " && "Y "[..1] == "Y";

    assert SpanStart(" Y ", 0) == 1 && SpanEnd(" Y ", 1, 3) == 2;
    StripUnchanged("TRUE");
    var y, t := Lower("Y"), Lower("TRUE");
    assert y[0] == 'y';
    assert t[0] == 't' && t[1] == 'r' && t[2] == 'u' && t[3] == 'e';
    assert Key(" Y ") == "y" && Key("TRUE") == "true";
  }

  lemma NoExamples()
    ensures NormalizeBool(Some("0")) == No && NormalizeBool(Some("False")) == No
  {
    StripUnchanged("0");
    LowerUnchanged("0");
    assert Key("0") == "0";
    KeyOfFalse();
  }

  lemma KeyOfFalse()
    ensures Key("False") == "false"
  {
    StripUnchanged("False");
    var f := Lower("False");
    assert f[0] == 'f' && f[1] == 'a' && f[2] == 'l' && f[3] == 's' && f[4] == 'e';
  }

  /** Empty and unrecognised text is unknown, as is a missing cell. */
  lemma UnknownExamples()
    ensures NormalizeBool(Some("")) == Unknown && NormalizeBool(Some("maybe")) == Unknown
    ensures NormalizeBool(None) == Unknown
  {
    StripUnchanged("maybe");
    LowerUnchanged("maybe");
    assert Key("") == "" && Key("maybe") == "maybe";
  }

  /** `normalize_str` */
  function NormalizeStr(v: Cell): (r: string)
    ensures r == [] || (!IsSpace(r[0]) && !IsSpace(r[|r| - 1]))
    ensures v.None? ==> r == ""
  {
    if v.None? then "" else Strip(v.value)
  }

  // ---------------------------------------------------------------------------
  // Pole-type normalisation

  /** An alias table: each canonical pole type with the spellings that name it. */
  type AliasTable = seq<(string, seq<string>)>

  /** `CONFIG["pole_type_aliases"]` */
  const DefaultAliases: AliasTable := [
    ("wood", ["wood", "wooden"]),
    ("steel", ["steel", "stl", "metal"]),
    ("composite", ["composite", "fiberglass", "fibreglass"])
  ]

  /** `difflib.SequenceMatcher(None, a, b).ratio()` lies in [0, 1]. */
  type Ratio = r: real | 0.0 <= r <= 1.0

  /**
    What pole-type normalisation is configured with: the alias table and the similarity ratio
    of two strings (`difflib`'s, which the model takes as given).
   */
  datatype Matcher = Matcher(aliases: AliasTable, ratio: (string, string) -> Ratio)

  /** Every canonical name in the table is non-empty, as in `DefaultAliases`. */
  predicate WellFormed(aliases: AliasTable) {
    forall k :: 0 <= k < |aliases| ==> aliases[k].0 != ""
  }

  /** `get_close_matches`' cutoff. */
  const Cutoff: real := 0.6

  /** The canonical of the first table entry whose alias list holds `s`. */
  function ExactCanon(aliases: AliasTable, s: string): (c: Option<string>)
    ensures c.None? <==> forall k :: 0 <= k < |aliases| ==> s !in aliases[k].1
    ensures c.Some? ==> exists k :: 0 <= k < |aliases| && s in aliases[k].1 && c.value == aliases[k].0
  {
    if aliases == [] then None
    else if s in aliases[0].1 then Some(aliases[0].0)
    else
      var c := ExactCanon(aliases[1..], s);
      assert forall k :: 1 <= k < |aliases| ==> aliases[k] == aliases[1..][k - 1];
      c
  }

  /** `(alias, canonical)` for each alias of `canon`, in list order. */
  function Pairs(names: seq<string>, canon: string): (ps: seq<(string, string)>)
    ensures |ps| == |names|
    ensures forall i :: 0 <= i < |ps| ==> ps[i] == (names[i], canon)
  {
    if names == [] then [] else Pairs(names[..|names| - 1], canon) + [(names[|names| - 1], canon)]
  }

  /** The fuzzy branch's `candidates` list: every `(alias, canonical)` pair in table order. */
  function AliasPairs(aliases: AliasTable): seq<(string, string)>
  {
    if aliases == [] then []
    else
      var last := aliases[|aliases| - 1];
      AliasPairs(aliases[..|aliases| - 1]) + Pairs(last.1, last.0)
  }

  /** Every candidate pairs an alias with a canonical name of the table. */
  lemma {:induction false} AliasPairsCanonical(aliases: AliasTable, i: nat)
    requires i < |AliasPairs(aliases)|
    ensures exists k :: 0 <= k < |aliases| && AliasPairs(aliases)[i].1 == aliases[k].0
  {
    var n := |aliases|;
    var front := AliasPairs(aliases[..n - 1]);
    if i < |front| {
      AliasPairsCanonical(aliases[..n - 1], i);
      var k :| 0 <= k < n - 1 && front[i].1 == aliases[..n - 1][k].0;
      assert aliases[..n - 1][k] == aliases[k];
    } else {
      assert AliasPairs(aliases)[i].1 == aliases[n - 1].0;
    }
  }

  /** `[c[0] for c in candidates]` */
  function Choices(cands: seq<(string, string)>): (cs: seq<string>)
    ensures |cs| == |cands|
    ensures forall i :: 0 <= i < |cs| ==> cs[i] == cands[i].0
  {
    if cands == [] then [] else Choices(cands[..|cands| - 1]) + [cands[|cands| - 1].0]
  }

  /** Python's `a < b` on strings: lexicographic by code point. */
  predicate StrLess(a: string, b: string) {
    if a == [] then b != []
    else if b == [] then false
    else if a[0] != b[0] then a[0] < b[0]
    else StrLess(a[1..], b[1..])
  }

  lemma {:induction false} StrLessIrreflexive(a: string)
    ensures !StrLess(a, a)
  {
    if a != [] {
      StrLessIrreflexive(a[1..]);
    }
  }

  lemma {:induction false} StrLessTotal(a: string, b: string)
    ensures a == b || StrLess(a, b) || StrLess(b, a)
  {
    if a != [] && b != [] && a[0] == b[0] {
      StrLessTotal(a[1..], b[1..]);
      if a[1..] == b[1..] {
        assert a == [a[0]] + a[1..] && b == [b[0]] + b[1..];
      }
    }
  }

  lemma {:induction false} StrLessAsymmetric(a: string, b: string)
    requires StrLess(a, b)
    ensures !StrLess(b, a)
  {
    if a != [] && b != [] && a[0] == b[0] {
      StrLessAsymmetric(a[1..], b[1..]);
    }
  }

  lemma {:induction false} StrLessTransitive(a: string, b: string, c: string)
    requires StrLess(a, b) && StrLess(b, c)
    ensures StrLess(a, c)
  {
    if a != [] && b != [] && c != [] && a[0] == b[0] && b[0] == c[0] {
      StrLessTransitive(a[1..], b[1..], c[1..]);
    }
  }

  /** `(sa, a) > (sb, b)` on Python tuples: the score first, then the larger string. */
  predicate Outranks(sa: real, a: string, sb: real, b: string) {
    sa > sb || (sa == sb && StrLess(b, a))
  }

  /**
    `difflib.get_close_matches(word, choices, n=1, cutoff=0.6)`: among the choices whose
    similarity to `word` reaches the cutoff, the one with the highest `(ratio, choice)` pair.
   */
  function GetCloseMatch(word: string, choices: seq<string>, ratio: (string, string) -> Ratio): (m: Option<string>)
    ensures m.None? <==> forall x :: x in choices ==> ratio(x, word) < Cutoff
    ensures m.Some? ==> m.value in choices && ratio(m.value, word) >= Cutoff
    ensures m.Some? ==> forall x :: x in choices && ratio(x, word) >= Cutoff ==>
      !Outranks(ratio(x, word), x, ratio(m.value, word), m.value)
  {
    if choices == [] then None
    else
      var x := choices[0];
      var rest := GetCloseMatch(word, choices[1..], ratio);
      assert forall y :: y in choices ==> y == x || y in choices[1..];
      if ratio(x, word) < Cutoff then rest
      else if rest.None? then
        StrLessIrreflexive(x);
        Some(x)
      else
        var r := rest.value;
        if Outranks(ratio(r, word), r, ratio(x, word), x) then
          OutranksAsymmetric(ratio(r, word), r, ratio(x, word), x);
          rest
        else
          OutranksNegTransitive(word, choices[1..], r, x, ratio);
          StrLessIrreflexive(x);
          Some(x)
  }

  lemma OutranksAsymmetric(sa: real, a: string, sb: real, b: string)
    requires Outranks(sa, a, sb, b)
    ensures !Outranks(sb, b, sa, a)
  {
    if sa == sb {
      StrLessAsymmetric(b, a);
    }
  }

  /** If nothing in `choices` outranks `r` and `r` does not outrank `x`, nothing in `choices` outranks `x`. */
  lemma OutranksNegTransitive(word: string, choices: seq<string>, r: string, x: string, ratio: (string, string) -> Ratio)
    requires !Outranks(ratio(r, word), r, ratio(x, word), x)
    requires forall y :: y in choices && ratio(y, word) >= Cutoff ==> !Outranks(ratio(y, word), y, ratio(r, word), r)
    ensures forall y :: y in choices && ratio(y, word) >= Cutoff ==> !Outranks(ratio(y, word), y, ratio(x, word), x)
  {
    forall y | y in choices && ratio(y, word) >= Cutoff
      ensures !Outranks(ratio(y, word), y, ratio(x, word), x)
    {
      if Outranks(ratio(y, word), y, ratio(x, word), x) {
        StrLessTotal(x, r);
        StrLessTotal(r, y);
        if x != r && r != y {
          StrLessTransitive(y, r, x);
          StrLessAsymmetric(x, y);
        }
      }
    }
  }

  /** The canonical paired with alias `a` by the first pair naming it. */
  function CanonOfAlias(cands: seq<(string, string)>, a: string): (c: string)
    requires a in Choices(cands)
    ensures exists k :: 0 <= k < |cands| && cands[k] == (a, c) && forall j :: 0 <= j < k ==> cands[j].0 != a
  {
    if cands[0].0 == a then cands[0].1
    else
      assert Choices(cands)[1..] == Choices(cands[1..]);
      var c := CanonOfAlias(cands[1..], a);
      assert forall j :: 1 <= j < |cands| ==> cands[j] == cands[1..][j - 1];
      c
  }

  /**
    The specification of `normalize_pole_type` on the stripped, lower-cased input `s`:
    empty gives `("", 0.0)`, a listed alias its canonical with confidence 1.0, otherwise the
    canonical of the closest alias with its similarity, otherwise `(s, 0.2)`.
   */
  function CanonicalType(m: Matcher, s: string): (string, real)
  {
    if s == "" then ("", 0.0)
    else match ExactCanon(m.aliases, s)
      case Some(c) => (c, 1.0)
      case None => FuzzyCanonical(m, s)
  }

  /** The fuzzy branch: the canonical of the closest alias with its similarity, or `(s, 0.2)`. */
  function FuzzyCanonical(m: Matcher, s: string): (string, real)
  {
    var cands := AliasPairs(m.aliases);
    match GetCloseMatch(s, Choices(cands), m.ratio)
    case Some(a) => (CanonOfAlias(cands, a), m.ratio(s, a))
    case None => (s, 0.2)
  }

  /** `normalize_pole_type` as a function of the raw cell. */
  function PoleTypeOf(m: Matcher, v: Cell): (string, real)
  {
    CanonicalType(m, Lower(NormalizeStr(v)))
  }

  /**
    What `normalize_pole_type` promises: the confidence lies in [0, 1]; the canonical is empty
    exactly when the input is; an alias maps to its canonical with confidence 1.0; any other
    result is a canonical of the table or the low-confidence pass-through `(s, 0.2)`.
   */
  lemma {:induction false} CanonicalTypeContract(m: Matcher, s: string)
    requires WellFormed(m.aliases)
    ensures var r := CanonicalType(m, s);
      && 0.0 <= r.1 <= 1.0
      && (s == "" ==> r == ("", 0.0))
      && (r.0 == "" <==> s == "")
      && (s != "" ==> forall k :: 0 <= k < |m.aliases| && s in m.aliases[k].1 && (forall j :: 0 <= j < k ==> s !in m.aliases[j].1) ==>
            r == (m.aliases[k].0, 1.0))
      && (s != "" ==> (exists k :: 0 <= k < |m.aliases| && r.0 == m.aliases[k].0) || r == (s, 0.2))
  {
    var r := CanonicalType(m, s);
    if s != "" {
      var c := ExactCanon(m.aliases, s);
      if c.Some? {
        forall k | 0 <= k < |m.aliases| && s in m.aliases[k].1 && (forall j :: 0 <= j < k ==> s !in m.aliases[j].1)
          ensures r == (m.aliases[k].0, 1.0)
        {
          ExactCanonFirst(m.aliases, s, k);
        }
      } else {
        var cands := AliasPairs(m.aliases);
        var best := GetCloseMatch(s, Choices(cands), m.ratio);
        if best.Some? {
          var i :| 0 <= i < |cands| && cands[i] == (best.value, r.0) && forall j :: 0 <= j < i ==> cands[j].0 != best.value;
          AliasPairsCanonical(m.aliases, i);
        }
      }
    }
  }

  /**
    With a symmetric similarity, a fuzzy match carries a confidence of at least the cutoff, so every
    confidence is 0.0 (empty), 0.2 (pass-through), 1.0 (exact alias) or at least 0.6 (fuzzy).
   */
  lemma FuzzyConfidenceAtLeastCutoff(m: Matcher, s: string)
    requires forall a, b :: m.ratio(a, b) == m.ratio(b, a)
    ensures var conf := CanonicalType(m, s).1;
      conf == 0.0 || conf == 0.2 || conf == 1.0 || conf >= Cutoff
  {
  }

  /** With the configured table: a listed spelling maps to its canonical with full confidence, empty text to `("", 0.0)`. */
  lemma DefaultAliasExamples(ratio: (string, string) -> Ratio)
    ensures CanonicalType(Matcher(DefaultAliases, ratio), "wooden") == ("wood", 1.0)
    ensures CanonicalType(Matcher(DefaultAliases, ratio), "stl") == ("steel", 1.0)
    ensures CanonicalType(Matcher(DefaultAliases, ratio), "fibreglass") == ("composite", 1.0)
    ensures CanonicalType(Matcher(DefaultAliases, ratio), "") == ("", 0.0)
  {
    ExactCanonFirst(DefaultAliases, "wooden", 0);
    assert "stl" != "wood" && "stl" != "wooden";
    ExactCanonFirst(DefaultAliases, "stl", 1);
    assert "fibreglass" !in DefaultAliases[0].1 && "fibreglass" !in DefaultAliases[1].1;
    ExactCanonFirst(DefaultAliases, "fibreglass", 2);
  }

  /** `normalize_pole_type`: direct alias lookup, then the fuzzy match over all aliases, then the pass-through. */
  method NormalizePoleType(m: Matcher, v: Cell) returns (canon: string, conf: real)
    ensures (canon, conf) == PoleTypeOf(m, v)
  {
    var s := Lower(NormalizeStr(v));
    var aliases := m.aliases;
    if s == "" {
      return "", 0.0;
    }
    // direct alias match
    var i := 0;
    while i < |aliases|
      invariant 0 <= i <= |aliases|
      invariant forall k :: 0 <= k < i ==> s !in aliases[k].1
    {
      if s in aliases[i].1 {
        ExactCanonFirst(aliases, s, i);
        return aliases[i].0, 1.0;
      }
      i := i + 1;
    }
    canon, conf := FuzzyMatch(m, s);
  }

  /** The fuzzy half of `normalize_pole_type`: list every `(alias, canonical)` pair, take the closest alias, look up its canonical. */
  method FuzzyMatch(m: Matcher, s: string) returns (canon: string, conf: real)
    ensures (canon, conf) == FuzzyCanonical(m, s)
  {
    var candidates := ListCandidates(m.aliases);
    var choices := Choices(candidates);
    var best := GetCloseMatch(s, choices, m.ratio);
    if best.Some? {
      // find the canonical for that alias
      var k := FindAlias(candidates, best.value);
      CanonOfAliasFirst(candidates, best.value, k);
      return candidates[k].1, m.ratio(s, candidates[k].0);
    }
    return s, 0.2;
  }

  /** `next(c for a, c in candidates if a == best)`: the position of the alias's first pair. */
  method FindAlias(candidates: seq<(string, string)>, alias: string) returns (k: nat)
    requires alias in Choices(candidates)
    ensures k < |candidates| && candidates[k].0 == alias
    ensures alias !in Choices(candidates)[..k]
  {
    var choices := Choices(candidates);
    ghost var w :| 0 <= w < |choices| && choices[w] == alias;
    k := 0;
    while candidates[k].0 != alias
      invariant 0 <= k <= w
      invariant alias !in choices[..k]
      decreases w - k
    {
      k := k + 1;
    }
  }

  /** The fuzzy branch's loops building `candidates`: every alias with its canonical, table order. */
  method ListCandidates(aliases: AliasTable) returns (candidates: seq<(string, string)>)
    ensures candidates == AliasPairs(aliases)
  {
    var i := 0;
    candidates := [];
    while i < |aliases|
      invariant 0 <= i <= |aliases|
      invariant candidates == AliasPairs(aliases[..i])
    {
      var (c, names) := aliases[i];
      var j := 0;
      while j < |names|
        invariant 0 <= j <= |names|
        invariant candidates == AliasPairs(aliases[..i]) + Pairs(names[..j], c)
      {
        assert names[..j + 1][..j] == names[..j];
        candidates := candidates + [(names[j], c)];
        j := j + 1;
      }
      assert names[..j] == names;
      assert aliases[..i + 1][..i] == aliases[..i];
      i := i + 1;
    }
    assert aliases[..i] == aliases;
  }

  lemma {:induction false} ExactCanonFirst(aliases: AliasTable, s: string, i: nat)
    requires i < |aliases| && s in aliases[i].1
    requires forall k :: 0 <= k < i ==> s !in aliases[k].1
    ensures ExactCanon(aliases, s) == Some(aliases[i].0)
  {
    if i > 0 {
      ExactCanonFirst(aliases[1..], s, i - 1);
    }
  }

  lemma {:induction false} CanonOfAliasFirst(cands: seq<(string, string)>, a: string, k: nat)
    requires k < |cands| && cands[k].0 == a
    requires a !in Choices(cands)[..k]
    ensures a in Choices(cands)
    ensures CanonOfAlias(cands, a) == cands[k].1
  {
    assert Choices(cands)[k] == a;
    if k > 0 {
      assert Choices(cands)[0] != a;
      assert Choices(cands)[1..] == Choices(cands[1..]);
      assert Choices(cands[1..])[..k - 1] == Choices(cands)[1..k];
      CanonOfAliasFirst(cands[1..], a, k - 1);
    }
  }

  // ---------------------------------------------------------------------------
  // Comparison

  /** What was compared: the normalised yes/no values, or the canonical pole types with their confidences. */
  datatype Detail =
    | Flags(gisNormalized: Tri, aiNormalized: Tri)
    | Categories(gisCanonical: string, aiCanonical: string, gisConfidence: real, aiConfidence: real)

  /** One entry of `compare`'s result; `severity` is optional because `compute_risk` accepts any list. */
  datatype Mismatch = Mismatch(field: Field, gis: Cell, ai: Cell, detail: Detail, severity: Option<string>)

  /** The fixed severity of a mismatch on each field. */
  function SeverityOf(f: Field): string {
    match f
    case Vegetation => "medium"
    case GuyGuard => "high"
    case PoleType => "medium"
    case ConduitRiser => "low"
  }

  /** One side of the comparison once normalised: the yes/no fields and the pole type's canonical with its confidence. */
  datatype Normalized = Normalized(vegetation: Tri, guyGuard: Tri, poleType: (string, real), conduitRiser: Tri)

  /** What `compare` computes from one side before comparing. */
  function Normalize(m: Matcher, r: Record<Cell>): Normalized {
    Normalized(NormalizeBool(r.vegetation), NormalizeBool(r.guyGuard), PoleTypeOf(m, r.poleType),
               NormalizeBool(r.conduitRiser))
  }

  /** Two yes/no values conflict when both are known and differ. */
  predicate FlagsDiffer(g: Tri, a: Tri) {
    g != Unknown && a != Unknown && g != a
  }

  /**
    When `compare` reports field `f` of two normalised sides: a yes/no field when both are known
    and differ, the pole type when both canonicals are non-empty and differ.
   */
  predicate Differs(g: Normalized, a: Normalized, f: Field) {
    match f
    case Vegetation => FlagsDiffer(g.vegetation, a.vegetation)
    case GuyGuard => FlagsDiffer(g.guyGuard, a.guyGuard)
    case PoleType => g.poleType.0 != "" && a.poleType.0 != "" && g.poleType.0 != a.poleType.0
    case ConduitRiser => FlagsDiffer(g.conduitRiser, a.conduitRiser)
  }

  /** The entry `compare` emits for field `f`: raw values, what they normalised to, severity. */
  function Entry(gis: Record<Cell>, ai: Record<Cell>, g: Normalized, a: Normalized, f: Field): Mismatch {
    var detail :=
      match f
      case Vegetation => Flags(g.vegetation, a.vegetation)
      case GuyGuard => Flags(g.guyGuard, a.guyGuard)
      case PoleType => Categories(g.poleType.0, a.poleType.0, g.poleType.1, a.poleType.1)
      case ConduitRiser => Flags(g.conduitRiser, a.conduitRiser);
    Mismatch(f, gis.Get(f), ai.Get(f), detail, Some(SeverityOf(f)))
  }

  /** The GIS row and the observation disagree on field `f`. */
  predicate Disagree(m: Matcher, ai: Record<Cell>, gis: Record<Cell>, f: Field) {
    Differs(Normalize(m, gis), Normalize(m, ai), f)
  }

  /** The fields of a mismatch list, in list order. */
  function FieldsOf(ms: seq<Mismatch>): (fs: seq<Field>)
    ensures |fs| == |ms|
    ensures forall i :: 0 <= i < |ms| ==> fs[i] == ms[i].field
  {
    if ms == [] then [] else FieldsOf(ms[..|ms| - 1]) + [ms[|ms| - 1].field]
  }

  /** Field `f` is reported in `ms`. */
  predicate Reports(ms: seq<Mismatch>, f: Field) {
    exists i :: 0 <= i < |ms| && ms[i].field == f
  }

  /** Examining field `f`: its entry is appended when the two sides differ on it. */
  function Examine(gis: Record<Cell>, ai: Record<Cell>, g: Normalized, a: Normalized, ms: seq<Mismatch>, f: Field): seq<Mismatch> {
    if Differs(g, a, f) then ms + [Entry(gis, ai, g, a, f)] else ms
  }

  /** The four fields examined in comparison order. */
  function ExamineAll(gis: Record<Cell>, ai: Record<Cell>, g: Normalized, a: Normalized): seq<Mismatch> {
    var afterVeg := Examine(gis, ai, g, a, [], Vegetation);
    var afterGg := Examine(gis, ai, g, a, afterVeg, GuyGuard);
    var afterType := Examine(gis, ai, g, a, afterGg, PoleType);
    Examine(gis, ai, g, a, afterType, ConduitRiser)
  }

  /** What `compare` returns. */
  function Mismatches(m: Matcher, ai: Record<Cell>, gis: Record<Cell>): seq<Mismatch> {
    ExamineAll(gis, ai, Normalize(m, gis), Normalize(m, ai))
  }

  /**
    `compare`: the fields in comparison order, each reported exactly when the two sides disagree
    on it, each entry carrying the raw values, what they normalised to and the field's severity.
   */
  method Compare(m: Matcher, ai: Record<Cell>, gis: Record<Cell>) returns (ms: seq<Mismatch>)
    ensures ms == Mismatches(m, ai, gis)
    ensures StrictlyOrdered(FieldsOf(ms))
    ensures forall f: Field :: Reports(ms, f) <==> Disagree(m, ai, gis, f)
    ensures forall i :: 0 <= i < |ms| ==>
      ms[i] == Entry(gis, ai, Normalize(m, gis), Normalize(m, ai), ms[i].field)
  {
    ms := [];
    // vegetation, medium
    ms := CompareFlag(m, ai, gis, ms, Vegetation);
    // guy guard, high
    ms := CompareFlag(m, ai, gis, ms, GuyGuard);
    // pole type with fuzzy matching, medium
    ms := ComparePoleType(m, ai, gis, ms);
    // conduit riser, low
    ms := CompareFlag(m, ai, gis, ms, ConduitRiser);
    ExamineAllContract(gis, ai, Normalize(m, gis), Normalize(m, ai));
  }

  /**
    One yes/no block of `compare`: both sides through `normalize_bool`, reported with the field's
    severity when both are known and differ.
   */
  method CompareFlag(m: Matcher, ai: Record<Cell>, gis: Record<Cell>, ms: seq<Mismatch>, f: Field) returns (next: seq<Mismatch>)
    requires f != PoleType
    ensures next == Examine(gis, ai, Normalize(m, gis), Normalize(m, ai), ms, f)
  {
    var gisNorm := NormalizeBool(gis.Get(f));
    var aiNorm := NormalizeBool(ai.Get(f));
    next := ms;
    if gisNorm != Unknown && aiNorm != Unknown && gisNorm != aiNorm {
      next := ms + [Mismatch(f, gis.Get(f), ai.Get(f), Flags(gisNorm, aiNorm), Some(SeverityOf(f)))];
    }
  }

  /** The pole-type block of `compare`: both sides through `normalize_pole_type`, reported when both canonicals are non-empty and differ. */
  method ComparePoleType(m: Matcher, ai: Record<Cell>, gis: Record<Cell>, ms: seq<Mismatch>) returns (next: seq<Mismatch>)
    ensures next == Examine(gis, ai, Normalize(m, gis), Normalize(m, ai), ms, PoleType)
  {
    var gisTypeCanon, gisConf := NormalizePoleType(m, gis.poleType);
    var aiTypeCanon, aiConf := NormalizePoleType(m, ai.poleType);
    next := ms;
    if gisTypeCanon != "" && aiTypeCanon != "" && gisTypeCanon != aiTypeCanon {
      next := ms + [Mismatch(PoleType, gis.poleType, ai.poleType,
                             Categories(gisTypeCanon, aiTypeCanon, gisConf, aiConf), Some("medium"))];
    }
  }

  /**
    Which fields the two normalised sides differ on, one flag per field, so that `Flagged` can
    list them in comparison order; what the listed mismatches mean is stated by ExamineAllContract.
   */
  function DiffFlags(g: Normalized, a: Normalized): (d: Record<bool>)
    ensures forall f: Field :: d.Get(f) == Differs(g, a, f)
  {
    Record(Differs(g, a, Vegetation), Differs(g, a, GuyGuard), Differs(g, a, PoleType), Differs(g, a, ConduitRiser))
  }

  /** A field is reported exactly when it is among the fields of the list. */
  lemma ReportsFields(ms: seq<Mismatch>, f: Field)
    ensures Reports(ms, f) <==> f in FieldsOf(ms)
  {
    var fs := FieldsOf(ms);
    if f in fs {
      var i :| 0 <= i < |fs| && fs[i] == f;
      assert ms[i].field == f;
    }
  }

  /** Examining a field adds that field to the list's fields exactly when the sides differ on it. */
  lemma ExamineFields(gis: Record<Cell>, ai: Record<Cell>, g: Normalized, a: Normalized, ms: seq<Mismatch>, f: Field)
    ensures FieldsOf(Examine(gis, ai, g, a, ms, f)) == Keep(DiffFlags(g, a), FieldsOf(ms), f)
  {
    if Differs(g, a, f) {
      var next := ms + [Entry(gis, ai, g, a, f)];
      assert next[..|ms|] == ms;
    }
  }

  /** Examining a field keeps every entry equal to its field's `Entry`. */
  lemma ExamineEntries(gis: Record<Cell>, ai: Record<Cell>, g: Normalized, a: Normalized, ms: seq<Mismatch>, f: Field)
    requires forall i :: 0 <= i < |ms| ==> ms[i] == Entry(gis, ai, g, a, ms[i].field)
    ensures var next := Examine(gis, ai, g, a, ms, f);
      forall i :: 0 <= i < |next| ==> next[i] == Entry(gis, ai, g, a, next[i].field)
  {
  }

  /**
    `compare`'s promise: the reported fields are in comparison order, a field is reported exactly
    when the two sides differ on it, and each entry is that field's mismatch.
   */
  lemma {:induction false} ExamineAllContract(gis: Record<Cell>, ai: Record<Cell>, g: Normalized, a: Normalized)
    ensures var ms := ExamineAll(gis, ai, g, a);
      && StrictlyOrdered(FieldsOf(ms))
      && (forall f: Field :: Reports(ms, f) <==> Differs(g, a, f))
      && (forall i :: 0 <= i < |ms| ==> ms[i] == Entry(gis, ai, g, a, ms[i].field))
  {
    var d := DiffFlags(g, a);
    var afterVeg := Examine(gis, ai, g, a, [], Vegetation);
    var afterGg := Examine(gis, ai, g, a, afterVeg, GuyGuard);
    var afterType := Examine(gis, ai, g, a, afterGg, PoleType);
    var ms := Examine(gis, ai, g, a, afterType, ConduitRiser);
    ExamineFields(gis, ai, g, a, [], Vegetation);
    ExamineFields(gis, ai, g, a, afterVeg, GuyGuard);
    ExamineFields(gis, ai, g, a, afterGg, PoleType);
    ExamineFields(gis, ai, g, a, afterType, ConduitRiser);
    ExamineEntries(gis, ai, g, a, [], Vegetation);
    ExamineEntries(gis, ai, g, a, afterVeg, GuyGuard);
    ExamineEntries(gis, ai, g, a, afterGg, PoleType);
    ExamineEntries(gis, ai, g, a, afterType, ConduitRiser);
    assert FieldsOf(ms) == Flagged(d);
    FlaggedContract(d);
    forall f: Field
      ensures Reports(ms, f) <==> Differs(g, a, f)
    {
      ReportsFields(ms, f);
    }
  }

  /** `compare` reports each field at most once, so at most four mismatches. */
  lemma {:induction false} CompareAtMostFour(ms: seq<Mismatch>)
    requires StrictlyOrdered(FieldsOf(ms))
    ensures |ms| <= 4
    ensures forall i, j :: 0 <= i < j < |ms| ==> ms[i].field != ms[j].field
  {
    OrderedAtMostFour(FieldsOf(ms));
  }

  /** Two identical pole-type cells never mismatch, whatever they normalise to. */
  lemma SamePoleTypeAgrees(m: Matcher, ai: Record<Cell>, gis: Record<Cell>)
    requires ai.poleType == gis.poleType
    ensures !Disagree(m, ai, gis, PoleType)
  {
  }

  /** An unknown or missing yes/no value on either side suppresses the mismatch on that field. */
  lemma UnknownNeverMismatches(m: Matcher, ai: Record<Cell>, gis: Record<Cell>, f: Field)
    requires f != PoleType
    requires NormalizeBool(ai.Get(f)) == Unknown || NormalizeBool(gis.Get(f)) == Unknown
    ensures !Disagree(m, ai, gis, f)
  {
  }

  // ---------------------------------------------------------------------------
  // Risk score, status and assessment

  /** `CONFIG["weights"]` */
  const VegetationPresentWeight: int := 15
  const GuyGuardMissingWeight: int := 35
  const PerMismatchWeight: int := 25

  /** What one mismatch costs: half again the weight when "high", half of it when "low", the weight otherwise. */
  function Penalty(severity: Option<string>): (p: real)
    ensures 0.5 * PerMismatchWeight as real <= p <= 1.5 * PerMismatchWeight as real
    ensures severity == Some("high") <==> p == 1.5 * PerMismatchWeight as real
    ensures severity == Some("low") <==> p == 0.5 * PerMismatchWeight as real
  {
    if severity == Some("high") then PerMismatchWeight as real * 1.5
    else if severity == Some("low") then PerMismatchWeight as real * 0.5
    else PerMismatchWeight as real
  }

  /** The penalties of a mismatch list, summed in list order. */
  function PenaltySum(ms: seq<Mismatch>): (t: real)
    ensures 12.5 * |ms| as real <= t <= 37.5 * |ms| as real
  {
    if ms == [] then 0.0 else PenaltySum(ms[..|ms| - 1]) + Penalty(ms[|ms| - 1].severity)
  }

  /**
    The observed-condition penalties: vegetation present (a missing value reads as "No") and a
    missing guy guard (a missing value reads as "Yes").
   */
  function ConditionPenalty(ai: Record<Cell>): (p: int)
    ensures p == 0 || p == VegetationPresentWeight || p == GuyGuardMissingWeight
      || p == VegetationPresentWeight + GuyGuardMissingWeight
  {
    (if VegetationPresent(ai) then VegetationPresentWeight else 0)
    + (if GuyGuardMissing(ai) then GuyGuardMissingWeight else 0)
  }

  /** `normalize_bool(ai.get("vegetation", "No")) == "yes"` */
  predicate VegetationPresent(ai: Record<Cell>) {
    NormalizeBool(Some(ai.vegetation.GetOr("No"))) == Yes
  }

  /** `normalize_bool(ai.get("guy_guard", "Yes")) == "no"` */
  predicate GuyGuardMissing(ai: Record<Cell>) {
    NormalizeBool(Some(ai.guyGuard.GetOr("Yes"))) == No
  }

  /** The score before rounding: 100 less the condition penalties and every mismatch's penalty. */
  function RawScore(ai: Record<Cell>, ms: seq<Mismatch>): real {
    100.0 - ConditionPenalty(ai) as real - PenaltySum(ms)
  }

  /** `max(0, min(100, int(round(score))))` */
  function RiskScore(ai: Record<Cell>, ms: seq<Mismatch>): (score: int)
    ensures 0 <= score <= 100
  {
    Clamp100(RoundHalfEven(RawScore(ai, ms)))
  }

  /** The assessment `generate_assessment` returns: risk level, data status, next action, confidence. */
  datatype Assessment = Assessment(riskLevel: string, dataStatus: string, action: string, confidence: string)

  const Verified: Assessment := Assessment("SAFE", "VERIFIED", "No review required", "High")
  const MinorDiscrepancies: Assessment :=
    Assessment("CAUTION", "Minor discrepancies", "Community validation suggested", "Medium")
  const SignificantDiscrepancy: Assessment :=
    Assessment("HIGH RISK", "Significant discrepancy", "Field inspection recommended", "Low")

  /**
    `generate_assessment`: verified only at 90 or more with no mismatch at all, otherwise minor
    discrepancies from 70 up, otherwise a significant discrepancy.
   */
  function GenerateAssessment(score: int, ms: seq<Mismatch>): (r: Assessment)
    ensures r == Verified <==> score >= 90 && ms == []
    ensures r == MinorDiscrepancies <==> score >= 70 && !(score >= 90 && ms == [])
    ensures r == SignificantDiscrepancy <==> score < 70
  {
    if score >= 90 && ms == [] then Verified
    else if score >= 70 then MinorDiscrepancies
    else SignificantDiscrepancy
  }

  /**
    `compute_risk`: start at 100, take off the condition penalties, then each mismatch's penalty
    in turn; round half to even, clamp to [0, 100], classify, and assess.
   */
  method ComputeRisk(ai: Record<Cell>, ms: seq<Mismatch>) returns (score: int, status: Status, assessment: Assessment)
    ensures score == RiskScore(ai, ms) && 0 <= score <= 100
    ensures status == StatusOf(score)
    ensures assessment == GenerateAssessment(score, ms)
  {
    // penalties for the observed conditions
    var raw: real := 100.0 - ConditionPenalty(ai) as real;
    // penalty per mismatch, scaled by severity
    raw := ApplyPenalties(raw, ms);
    score := Clamp100(RoundHalfEven(raw));
    if score >= 80 {
      status := Ok;
    } else if score >= 50 {
      status := Warning;
    } else {
      status := HighRisk;
    }
    assessment := GenerateAssessment(score, ms);
  }

  /** The per-mismatch loop of `compute_risk`: each mismatch's severity-scaled penalty taken off in turn. */
  method ApplyPenalties(start: real, ms: seq<Mismatch>) returns (raw: real)
    ensures raw == start - PenaltySum(ms)
  {
    raw := start;
    var i := 0;
    while i < |ms|
      invariant 0 <= i <= |ms|
      invariant raw == start - PenaltySum(ms[..i])
    {
      var severity := ms[i].severity;
      var penalty: real;
      if severity == Some("high") {
        penalty := PerMismatchWeight as real * 1.5;
      } else if severity == Some("low") {
        penalty := PerMismatchWeight as real * 0.5;
      } else {
        penalty := PerMismatchWeight as real;
      }
      assert ms[..i + 1][..i] == ms[..i];
      raw := raw - penalty;
      i := i + 1;
    }
    assert ms[..i] == ms;
  }

  /** Penalties add up over concatenation. */
  lemma {:induction false} PenaltySumAppend(a: seq<Mismatch>, b: seq<Mismatch>)
    ensures PenaltySum(a + b) == PenaltySum(a) + PenaltySum(b)
  {
    if b == [] {
      assert a + b == a;
    } else {
      assert (a + b)[..|a + b| - 1] == a + b[..|b| - 1];
      assert (a + b)[|a + b| - 1] == b[|b| - 1];
      PenaltySumAppend(a, b[..|b| - 1]);
    }
  }

  /** Adding a mismatch anywhere in the list never raises the score. */
  lemma AddedMismatchNeverRaisesScore(ai: Record<Cell>, before: seq<Mismatch>, x: Mismatch, after: seq<Mismatch>)
    ensures RiskScore(ai, before + [x] + after) <= RiskScore(ai, before + after)
  {
    PenaltySumAppend(before + [x], after);
    PenaltySumAppend(before, [x]);
    PenaltySumAppend(before, after);
    assert PenaltySum([x]) == PenaltySum([]) + Penalty(x.severity);
    RoundMonotone(RawScore(ai, before + [x] + after), RawScore(ai, before + after));
    Clamp100Monotone(RoundHalfEven(RawScore(ai, before + [x] + after)), RoundHalfEven(RawScore(ai, before + after)));
  }

  /** An observation with no adverse condition scores at least as well as any other, on the same mismatches. */
  lemma ConditionsNeverRaiseScore(ai: Record<Cell>, clear: Record<Cell>, ms: seq<Mismatch>)
    requires ConditionPenalty(clear) == 0
    ensures RiskScore(ai, ms) <= RiskScore(clear, ms)
  {
    RoundMonotone(RawScore(ai, ms), RawScore(clear, ms));
    Clamp100Monotone(RoundHalfEven(RawScore(ai, ms)), RoundHalfEven(RawScore(clear, ms)));
  }

  /** Missing vegetation and guy-guard values read as "No" and "Yes", which carry no penalty. */
  lemma MissingConditionsCarryNoPenalty(ai: Record<Cell>)
    requires ai.vegetation.None? && ai.guyGuard.None?
    ensures ConditionPenalty(ai) == 0
  {
    StripUnchanged("No");
    StripUnchanged("Yes");
    var no, yes := Lower("No"), Lower("Yes");
    assert no[0] == 'n' && no[1] == 'o';
    assert yes[0] == 'y' && yes[1] == 'e' && yes[2] == 's';
    assert Key("No") == "no" && Key("Yes") == "yes";
  }

  /** With no mismatches the score is fixed by the two conditions alone: 100, 85, 65 or 50. */
  lemma NoMismatchScores(ai: Record<Cell>)
    ensures RiskScore(ai, []) in {100, 85, 65, 50}
  {
    var p := ConditionPenalty(ai);
    var n := RoundHalfEven(RawScore(ai, []));
    assert n == 100 - p;
  }

  /** Python's `round` goes to the even neighbour on a tie: a single low mismatch gives 87.5, scored 88; a single high one 62.5, scored 62. */
  lemma RoundingExamples(ai: Record<Cell>, low: Mismatch, high: Mismatch)
    requires ConditionPenalty(ai) == 0
    requires low.severity == Some("low") && high.severity == Some("high")
    ensures RiskScore(ai, [low]) == 88
    ensures RiskScore(ai, [high]) == 62
  {
    assert [low][..0] == [] && [high][..0] == [];
    assert RawScore(ai, [low]) == 87.5;
    assert RawScore(ai, [high]) == 62.5;
  }

  /** The two ladders agree at their ends: a verified assessment has status OK, status HIGH RISK a significant discrepancy. */
  lemma LaddersConsistent(score: int, ms: seq<Mismatch>)
    ensures GenerateAssessment(score, ms) == Verified ==> StatusOf(score) == Ok
    ensures StatusOf(score) == HighRisk ==> GenerateAssessment(score, ms) == SignificantDiscrepancy
    ensures StatusOf(score) == Ok && ms == [] && score < 90 ==> GenerateAssessment(score, ms) == MinorDiscrepancies
  {
  }

  // ---------------------------------------------------------------------------
  // GIS table

  /** The columns a GIS table must have. */
  const RequiredColumns: set<string> :=
    {"pole_id", "expected_vegetation", "expected_guy_guard", "pole_type", "has_conduit_riser"}

  /** The required columns absent from a header; `load_gis` fails when there is any. */
  function MissingColumns(header: set<string>): (missing: set<string>)
    ensures missing <= RequiredColumns && missing !! header
    ensures missing == {} <==> RequiredColumns <= header
  {
    var missing := RequiredColumns - header;
    assert missing == {} ==> RequiredColumns <= header by {
      if missing == {} {
        forall c | c in RequiredColumns
          ensures c in header
        {
          assert c !in missing;
        }
      }
    }
    assert RequiredColumns <= header ==> missing == {} by {
      if RequiredColumns <= header {
        assert forall c :: c !in missing;
      }
    }
    missing
  }

  /** A GIS row: its `pole_id` and the four inspected columns. */
  datatype GisRow = GisRow(poleId: string, values: Record<Cell>)

  /** `get_gis_record`: the first row whose `pole_id` equals the one asked for, if any. */
  function GetGisRecord(rows: seq<GisRow>, poleId: string): (r: Option<GisRow>)
    ensures r.None? <==> forall i :: 0 <= i < |rows| ==> rows[i].poleId != poleId
    ensures r.Some? ==> exists i ::
      0 <= i < |rows| && rows[i] == r.value && rows[i].poleId == poleId &&
      (forall j :: 0 <= j < i ==> rows[j].poleId != poleId)
  {
    if rows == [] then None
    else if rows[0].poleId == poleId then Some(rows[0])
    else
      var r := GetGisRecord(rows[1..], poleId);
      assert forall i :: 1 <= i < |rows| ==> rows[i] == rows[1..][i - 1];
      r
  }

  /** What the reconciliation of one observation yields. */
  datatype Outcome =
    | NoGisRecord
    | Report(gis: GisRow, mismatches: seq<Mismatch>, score: int, status: Status, assessment: Assessment)

  /** The main flow: look the pole up, compare, score. */
  method Reconcile(m: Matcher, rows: seq<GisRow>, poleId: string, ai: Record<Cell>) returns (out: Outcome)
    ensures out.NoGisRecord? <==> forall i :: 0 <= i < |rows| ==> rows[i].poleId != poleId
    ensures out.Report? ==>
      && GetGisRecord(rows, poleId) == Some(out.gis)
      && out.mismatches == Mismatches(m, ai, out.gis.values)
      && out.score == RiskScore(ai, out.mismatches)
      && out.status == StatusOf(out.score)
      && out.assessment == GenerateAssessment(out.score, out.mismatches)
  {
    var gisRow := GetGisRecord(rows, poleId);
    if gisRow.None? {
      return NoGisRecord;
    }
    var mismatches := Compare(m, ai, gisRow.value.values);
    var score, status, assessment := ComputeRisk(ai, mismatches);
    return Report(gisRow.value, mismatches, score, status, assessment);
  }
}
