# Pole reconciliation core, in Dafny

HackStreet-Boys reconciles what a field observation (an AI detector, OCR or a person) says about a
utility pole with what the GIS register says about it. This project models the decision logic of
that system and proves properties of it:

- **GisReconcile** (`compare_demo.py`) is the main engine. It has a tri-state yes/no normaliser and a
  pole-type normaliser that tries an alias table, then fuzzy matching, and returns a confidence. It
  has a comparator that emits severity-tagged mismatches in a fixed field order, a weighted risk
  score with Python's half-to-even rounding, two threshold ladders (status and assessment), and a
  first-match GIS row lookup.
- **ExactCompare** (`app.py`) is the older exact-string comparator with a flat 25 points per
  mismatch. It also holds the pole-id suggestion heuristic over recognised text.
  **PoleReview** (`pages/pole.py`) is the page-local copy of the same two functions.
- **OcrTag** (`Preprocessing/process.py`) picks the first confident recognition result that looks
  like an asset tag and looks it up in the mock GIS database.
- **TagServer** (`src/server.py`) is the two-tier variant of the tag reader. It pools the results
  of the four preprocessing passes and sorts them by confidence, stably, before the search.
- **InfraDetect** (`src/infra_gis_detect.py`) holds the post-detection rules. They cover the OCR
  candidate filter, the tag choice (longest, then most confident, then first), the mapping from
  detector labels to pole type and vegetation flag, and the pole id taken from the file name.
- **GisCsv** (`src/infra_gis_detect.py`) is the `write_gis_csv` upsert. The table is modelled as a
  class over a sequence of rows: matching rows are updated in place, otherwise one row is appended.

Shared helper modules:

- **Wrappers** holds Option.
- **AsciiText** holds Python's `strip`, `lower`, `upper`, `split` and `join`, and the character
  classes, on ASCII.
- **PyNum** holds `round` (half to even), the 0..100 clamp, integer printing and `:.2f`.
- **PoleRecords** holds the four compared fields, their fixed order, per-field records and the
  OK / WARNING / HIGH RISK ladder.

Recognition engines, the object detector, the similarity ratio of `difflib` and file contents are
inputs to the model, never computed by it.

## Model

| member | source | states |
|---|---|---|
| GisReconcile.NormalizeBool | compare_demo.py:32-40 | a missing cell is unknown; yes exactly when the stripped, lower-cased text is one of yes/y/true/1/t; no exactly when it is one of no/n/false/0/f; unknown otherwise |
| GisReconcile.YesExamples | compare_demo.py:26-37 | " Y " and "TRUE" read as yes, whatever the spacing and case |
| GisReconcile.NoExamples | compare_demo.py:27-39 | "0" and "False" read as no |
| GisReconcile.UnknownExamples | compare_demo.py:32-40 | an empty string, an unlisted word and a missing value are all unknown |
| GisReconcile.NormalizeStr | compare_demo.py:42-45 | the result has no surrounding whitespace; a missing value gives "" |
| GisReconcile.ExactCanon | compare_demo.py:56-58 | there is no canonical exactly when no alias list holds the text; otherwise the canonical is the key of a list that holds it |
| GisReconcile.ExactCanonFirst | compare_demo.py:56-58 | the canonical returned is that of the first alias list, in table order, that holds the text |
| GisReconcile.Pairs | compare_demo.py:62-63 | one (alias, canonical) pair per alias of a list, in list order |
| GisReconcile.AliasPairsCanonical | compare_demo.py:60-63 | every fuzzy candidate carries a canonical key of the table |
| GisReconcile.AliasPairs | compare_demo.py:60-63 | every (alias, canonical) pair of the table, in table order; its canonicals are stated by AliasPairsCanonical |
| GisReconcile.Choices | compare_demo.py:64 | the choices are the candidates' aliases, position by position |
| GisReconcile.StrLessIrreflexive | compare_demo.py:65 | the string order used to break similarity ties never ranks a string above itself |
| GisReconcile.StrLessTotal | compare_demo.py:65 | of two distinct strings, one always ranks above the other |
| GisReconcile.StrLessAsymmetric | compare_demo.py:65 | the tie-break order never ranks two strings above each other |
| GisReconcile.StrLessTransitive | compare_demo.py:65 | the tie-break order is transitive |
| GisReconcile.GetCloseMatch | compare_demo.py:65 | no match exactly when every choice scores below 0.6; a match is a choice scoring at least 0.6 that no other such choice outranks by score, then by the larger string |
| GisReconcile.OutranksAsymmetric | compare_demo.py:65 | of two scored candidates at most one outranks the other |
| GisReconcile.OutranksNegTransitive | compare_demo.py:65 | if nothing outranks the best match and the best does not outrank x, nothing outranks x either |
| GisReconcile.CanonOfAlias | compare_demo.py:67-69 | the canonical of the first candidate whose alias is the match |
| GisReconcile.CanonOfAliasFirst | compare_demo.py:67-69 | that canonical is the one paired with the earliest occurrence of the alias |
| GisReconcile.CanonicalType | compare_demo.py:52-74 | the exact alias match, then the fuzzy match, on non-empty text; its properties are stated by CanonicalTypeContract |
| GisReconcile.FuzzyCanonical | compare_demo.py:60-74 | the canonical of the best close alias with the similarity ratio as confidence, or the text itself at 0.2 |
| GisReconcile.PoleTypeOf | compare_demo.py:47-74 | the normalisation of a cell: its stripped, lower-cased text put through CanonicalType |
| GisReconcile.CanonicalTypeContract | compare_demo.py:52-74 | the confidence lies in [0,1]; empty input gives ("", 0.0); the canonical is empty exactly when the input is; the first alias list holding the input gives (its key, 1.0); any other result is a canonical of the table or the pass-through (input, 0.2) |
| GisReconcile.FuzzyConfidenceAtLeastCutoff | compare_demo.py:65-72 | with a symmetric similarity ratio the confidence is 0.0, 0.2, 1.0 or at least the 0.6 cutoff |
| GisReconcile.DefaultAliasExamples | compare_demo.py:22-25 | with the default table, "wooden" is wood, "stl" is steel and "fibreglass" is composite, each at 1.0; "" is ("", 0.0) |
| GisReconcile.NormalizePoleType | compare_demo.py:47-74 | the method's result is the pole-type normalisation of the cell, whose properties CanonicalTypeContract states |
| GisReconcile.FuzzyMatch | compare_demo.py:60-74 | the fuzzy branch's loops give the fuzzy canonical of the input |
| GisReconcile.ListCandidates | compare_demo.py:60-63 | the nested loops list every (alias, canonical) pair in table order |
| GisReconcile.FindAlias | compare_demo.py:67-68 | the scan stops at the first candidate whose alias is the match |
| GisReconcile.FieldsOf | compare_demo.py:86-143 | the fields of the mismatch list, entry by entry |
| GisReconcile.ReportsFields | compare_demo.py:86-143 | a field is reported exactly when it appears among the mismatches' fields |
| GisReconcile.ExamineFields | compare_demo.py:89-141 | checking one field appends that field exactly when the two normalised records differ on it |
| GisReconcile.ExamineEntries | compare_demo.py:89-141 | each appended entry carries its field's fixed severity and both raw values |
| GisReconcile.ExamineAllContract | compare_demo.py:86-143 | the mismatch list is in the order vegetation, guy guard, pole type, riser; a field is reported exactly when the normalised values differ; each entry is that field's entry |
| GisReconcile.Compare | compare_demo.py:86-143 | the method's list is the mismatch function, strictly in field order; a field is reported exactly when both sides are known and differ; each entry carries that field's severity (medium, high, medium, low) and values |
| GisReconcile.CompareFlag | compare_demo.py:89-141 | one yes/no field is appended exactly when both sides are known and differ |
| GisReconcile.ComparePoleType | compare_demo.py:115-128 | the pole type is appended exactly when both canonicals are non-empty and differ, with both confidences |
| GisReconcile.CompareAtMostFour | compare_demo.py:86-143 | at most four mismatches, no field twice |
| GisReconcile.SamePoleTypeAgrees | compare_demo.py:115-128 | two identical pole-type cells never mismatch, even when they match no alias |
| GisReconcile.UnknownNeverMismatches | compare_demo.py:89-141 | an unknown value on either side never produces a mismatch |
| GisReconcile.Penalty | compare_demo.py:158-167 | a mismatch costs 37.5 exactly when high, 12.5 exactly when low, otherwise 25 |
| GisReconcile.PenaltySum | compare_demo.py:158-167 | the total penalty lies between 12.5 and 37.5 per mismatch |
| GisReconcile.PenaltySumAppend | compare_demo.py:158-167 | the total penalty adds up over concatenated lists |
| GisReconcile.ConditionPenalty | compare_demo.py:150-156 | the observed conditions cost 0, 15 (vegetation present), 35 (guy guard missing) or 50 (both) |
| GisReconcile.MissingConditionsCarryNoPenalty | compare_demo.py:150-156 | missing vegetation and guy-guard values default to "No" and "Yes" and cost nothing |
| GisReconcile.RiskScore | compare_demo.py:170 | the score lies in 0..100 |
| GisReconcile.ApplyPenalties | compare_demo.py:158-167 | the loop subtracts exactly the total penalty from the running score |
| GisReconcile.ComputeRisk | compare_demo.py:146-183 | the score is the clamped, half-to-even rounded weighted score in 0..100; the status follows the 80/50 ladder; the assessment follows its own ladder |
| GisReconcile.AddedMismatchNeverRaisesScore | compare_demo.py:158-170 | inserting a mismatch anywhere never raises the score |
| GisReconcile.ConditionsNeverRaiseScore | compare_demo.py:150-170 | an observation with penalised conditions never scores above one without them |
| GisReconcile.NoMismatchScores | compare_demo.py:150-170 | with no mismatch the score is 100, 85, 65 or 50 |
| GisReconcile.RoundingExamples | compare_demo.py:170 | 87.5 rounds to 88 and 62.5 to 62, as Python's round does |
| GisReconcile.GenerateAssessment | compare_demo.py:185-206 | VERIFIED exactly when the score is at least 90 with no mismatch; MINOR exactly when at least 70 otherwise; SIGNIFICANT exactly below 70 |
| GisReconcile.LaddersConsistent | compare_demo.py:172-206 | a verified pole has status OK; a high-risk status always comes with the significant assessment; a clean pole under 90 with status OK is a minor discrepancy |
| GisReconcile.MissingColumns | compare_demo.py:78-81 | the missing columns are the required ones absent from the header, and none are missing exactly when the header holds them all |
| GisReconcile.GetGisRecord | compare_demo.py:209-213 | none exactly when no row has the id; otherwise the first row with that id |
| GisReconcile.Reconcile | compare_demo.py:216-232 | no report exactly when the pole is not in the register; otherwise the report holds the first matching row, its mismatches, score, status and assessment |
| ExactCompare.FieldName | app.py:35-46 | each field's message label is non-empty |
| ExactCompare.Message | app.py:35-46 | a message starts with its field's label |
| ExactCompare.MessageNamesField | app.py:35-46 | a message determines its field: two fields never share a message |
| ExactCompare.DifferingFieldsContract | app.py:33-47 | the differing fields are in the fixed order, at most four, and a field is among them exactly when its texts differ |
| ExactCompare.Messages | app.py:35-47 | one message per differing field, in order |
| ExactCompare.MessagesKeep | app.py:35-47 | checking one more field appends its message exactly when it differs |
| ExactCompare.MessagesNameFields | app.py:35-47 | a field's message is in the list exactly when the field is |
| ExactCompare.Compare | app.py:33-47 | the method's messages are those of the differing fields, in the fixed order |
| ExactCompare.CompareField | app.py:35-46 | one step appends the field's message exactly when its texts differ |
| ExactCompare.CompareReports | app.py:33-47 | at most four messages, and a field's message appears exactly when its texts differ |
| ExactCompare.SpellingsOfYesDiffer | app.py:35-36 | "Y" against "Yes" is a mismatch: there is no yes/no normalisation |
| ExactCompare.SameTextAgrees | app.py:35-46 | equal texts never mismatch |
| ExactCompare.ComputeRisk | app.py:49-63 | the score lies in 0..100 and the status follows the 80/50 ladder |
| ExactCompare.EqualWeighting | app.py:55 | only the number of mismatches matters, not their content |
| ExactCompare.MoreMismatchesNeverRaiseScore | app.py:55-56 | more mismatches never give a higher score |
| ExactCompare.NoMismatchScores | app.py:50-56 | with no mismatch the score is 100, 85, 65 or 50, and 100 exactly when neither condition is penalised |
| ExactCompare.NonEmptyStripped | app.py:81 | the kept tokens are stripped and non-empty; which pieces give tokens, in which order, NonEmptyStrippedAppend and NonEmptyStrippedOne state |
| ExactCompare.NonEmptyStrippedAppend | app.py:81 | the pieces of a concatenation give their tokens one after the other, in order |
| ExactCompare.NonEmptyStrippedOne | app.py:81 | one piece gives its stripped text, or nothing when only whitespace is left |
| ExactCompare.Tokens | app.py:81 | after newlines become spaces, every token is stripped, non-empty and free of spaces; which tokens, TokensOfWords states |
| ExactCompare.TokensOfWords | app.py:81 | three words separated by a space and a line break give back exactly those three words, in order |
| ExactCompare.TokensExample | app.py:81 | "pole P12\nok" gives the tokens "pole", "P12" and "ok" |
| ExactCompare.BreakBecomesSpace | app.py:81 | a line break between break-free texts turns into a space and nothing else changes |
| ExactCompare.WordsSplit | app.py:81 | space-free words joined by single spaces split back into those words |
| ExactCompare.WordsStripped | app.py:81 | tokens already stripped are kept as they are |
| ExactCompare.KeepPoleIdChars | app.py:85 | only P, p and digits are kept, the leading P stays first, and a digit is never lost; which characters, in which order, KeepPoleIdCharsAppend and KeepPoleIdCharsOne state |
| ExactCompare.KeepPoleIdCharsAppend | app.py:85 | the kept characters of a concatenation are those of each part, in order |
| ExactCompare.KeepPoleIdCharsOne | app.py:85 | one character is kept exactly when it is P, p or a digit |
| ExactCompare.CleanShape | app.py:83-86 | a qualifying token cleans to a P followed by P or digit characters, with at least one digit |
| ExactCompare.FirstPoleIdToken | app.py:82-83 | the position of the first token that starts with p or P and holds a digit |
| ExactCompare.LooksLikePoleId | app.py:83 | the token starts with p or P and holds a digit |
| ExactCompare.CleanPoleId | app.py:85-86 | the token's P, p and digit characters, upper-cased; its shape is stated by CleanShape |
| ExactCompare.Suggestion | app.py:82-89 | none exactly when no token qualifies; otherwise the cleaned, upper-cased first qualifying token |
| ExactCompare.SuggestionShape | app.py:82-86 | any suggestion starts with 'P' and holds a digit |
| ExactCompare.SuggestPoleId | app.py:76-89 | the loop's early return gives the suggestion for the text's tokens |
| PoleReview.Compare | pages/pole.py:29-43 | the same messages as app.py: at most four, and a field's message appears exactly when its texts differ |
| PoleReview.ComputeRisk | pages/pole.py:45-59 | the score lies in 0..100, the status follows the ladder, and both equal app.py's |
| PoleReview.ScoreMultipleOfFive | pages/pole.py:46-52 | every score is a multiple of 5 |
| PoleReview.StatusByMismatchCount | pages/pole.py:51-58 | without penalised conditions: OK exactly with no mismatch, WARNING with one or two, HIGH RISK with three or more |
| PoleReview.VegetationAloneIsOk | pages/pole.py:47-58 | vegetation alone scores 85, still OK; one more mismatch gives 60, WARNING |
| PoleReview.MissingGuyGuardNeverOk | pages/pole.py:49-58 | a missing guy guard caps the score at 65 and the status is never OK |
| OcrTag.FirstAccepted | Preprocessing/process.py:48-51 | the position of the first result with confidence above 0.4 whose cleaned text is a tag |
| OcrTag.Cleaned | Preprocessing/process.py:49 | the stripped text with its spaces removed: it holds no space and is never longer; its value is fixed by RemoveCharAppend, RemoveCharOne and StripSlice |
| OcrTag.CleanedExample | Preprocessing/process.py:49 | " AB 12 " is cleaned to "AB12" |
| OcrTag.IsTagText | Preprocessing/process.py:50 | 4 to 10 characters of A-Z, 0-9 and '-' |
| OcrTag.Accepted | Preprocessing/process.py:50 | confidence strictly above 0.4 and cleaned text that is tag text |
| OcrTag.ExtractTagNumber | Preprocessing/process.py:47-52 | none exactly when no result qualifies; otherwise the cleaned text of a qualifying result with every earlier one rejected |
| OcrTag.TagShape | Preprocessing/process.py:49-50 | a tag is 4 to 10 characters of A-Z, 0-9 and '-', with no space, no surrounding whitespace and no lower-case letter |
| OcrTag.ThresholdIsStrict | Preprocessing/process.py:50 | results at confidence 0.4 or below never give a tag |
| OcrTag.TagReadBack | Preprocessing/process.py:48-51 | a text that already is a tag, read above 0.4, comes back unchanged |
| OcrTag.LookupTag | Preprocessing/process.py:88-101 | no tag, the tag with its database record when the key is present, or a flag for manual review when it is absent |
| OcrTag.KeysAreTags | Preprocessing/process.py:7-12 | every database key is tag text, and reading it confidently finds its record |
| TagServer.ExtractTagNumber | src/server.py:56-63 | the same tag as the single-threshold reader; unreadable exactly when there is none; high confidence exactly when the chosen result is above 0.6, low when it is in (0.4, 0.6] |
| TagServer.PoolHolds | src/server.py:44-52 | a result is in the pool exactly when one of the passes produced it |
| TagServer.InsertPermutes | src/server.py:53 | insertion adds exactly the one result |
| TagServer.Insert | src/server.py:53 | one result placed after every result of at least its confidence; its properties are stated by InsertPermutes, InsertSorted and InsertStable |
| TagServer.InsertSorted | src/server.py:53 | insertion keeps the list in non-increasing confidence |
| TagServer.SortByConf | src/server.py:53 | the sorted list is in non-increasing confidence |
| TagServer.SortPermutes | src/server.py:53 | sorting is a permutation |
| TagServer.WithConfAppend | src/server.py:53 | the results at one confidence split over a concatenation |
| TagServer.InsertStable | src/server.py:53 | an inserted result goes after the results of equal confidence |
| TagServer.SortStable | src/server.py:53 | results of equal confidence keep their original order, as Python's stable sort does with reverse=True |
| TagServer.InsertByConf | src/server.py:53 | the method's loop performs one insertion |
| TagServer.SortCandidates | src/server.py:53 | the method's loop gives the stable sort by confidence |
| TagServer.TryAllPreprocesses | src/server.py:43-54 | the candidates are the pooled results, permuted and in non-increasing confidence |
| TagServer.Detect | src/server.py:43-63 | the tag read from the sorted pool of all passes; its choice is stated by DetectPicksMostConfident |
| TagServer.SortKeepsMembers | src/server.py:53 | sorting neither adds nor drops a result |
| TagServer.FirstMatchIsMostConfident | src/server.py:53-62 | in a sorted list, the first result meeting a test is the most confident one meeting it |
| TagServer.DetectPicksMostConfident | src/server.py:43-63 | over the sorted pool, the returned tag comes from the most confident qualifying result |
| InfraDetect.FilterChars | src/infra_gis_detect.py:60 | the filtered text keeps only letters, digits and '-' and is never longer; which characters it keeps, in which order, FilterCharsAppend and FilterCharsOne state |
| InfraDetect.FilterCharsIdempotent | src/infra_gis_detect.py:60 | filtering twice changes nothing |
| InfraDetect.FilterKeeps | src/infra_gis_detect.py:60 | text that is already clean passes unchanged |
| InfraDetect.FilterCharsAppend | src/infra_gis_detect.py:60 | the filter works piece by piece: the filtered concatenation is the concatenation of the filtered parts, so the kept characters stay in input order |
| InfraDetect.FilterCharsOne | src/infra_gis_detect.py:60 | one character is kept exactly when it is a letter, a digit or '-' |
| InfraDetect.FilterExample | src/infra_gis_detect.py:60-62 | the recognised text "AB 12" becomes the candidate text "AB12" |
| InfraDetect.BoxCandidates | src/infra_gis_detect.py:59-62 | every candidate from a box is clean text of at least four characters |
| InfraDetect.AllCandidates | src/infra_gis_detect.py:55-62 | the same holds for the candidates over all boxes |
| InfraDetect.CollectCandidates | src/infra_gis_detect.py:55-62 | the method's nested loops collect exactly those candidates, in box order |
| InfraDetect.MaxLen | src/infra_gis_detect.py:69 | the largest candidate length, reached by some candidate |
| InfraDetect.MostConfidentOfLength | src/infra_gis_detect.py:70 | among candidates of the given length, the first of highest confidence |
| InfraDetect.FromOcr | src/infra_gis_detect.py:71 | the candidate's text followed by its confidence written with two decimals |
| InfraDetect.ChooseTag | src/infra_gis_detect.py:66-75 | both fields are empty exactly when there is no candidate; otherwise the tag is a longest candidate, the most confident of those, the first such, and the OCR field is its text with its confidence |
| InfraDetect.MappedType | src/infra_gis_detect.py:83-87 | wood for wood, wooden and composite, metal for steel and metal, in any case; unmapped otherwise |
| InfraDetect.FirstMapped | src/infra_gis_detect.py:79-89 | the type of the first label that maps; its properties are stated by FirstMappedIsFirst and FirstMappedAppend |
| InfraDetect.FirstMappedIsFirst | src/infra_gis_detect.py:83-89 | the type found is that of a label preceded only by unmapped labels, and none is found exactly when no label maps |
| InfraDetect.FirstMappedAppend | src/infra_gis_detect.py:88-89 | once a label has set the pole type, later labels never change it |
| InfraDetect.AnyVegetation | src/infra_gis_detect.py:90-91 | true exactly when some label mentions vegetation |
| InfraDetect.Labels | src/infra_gis_detect.py:78-82 | the labels of the boxes, in order |
| InfraDetect.MapLabels | src/infra_gis_detect.py:78-95 | the pole type is the first mapped label's type, or wood when none maps; vegetation is set exactly when some label mentions it |
| InfraDetect.MapLabel | src/infra_gis_detect.py:83-91 | one label sets the type only when it is still unset, and sets vegetation only when it mentions it |
| InfraDetect.MapLabelStep | src/infra_gis_detect.py:78-91 | extending the labels by one advances both running results by that label |
| InfraDetect.LastIndex | src/infra_gis_detect.py:37-38 | the position of the last occurrence of a character, none exactly when it is absent |
| InfraDetect.Basename | src/infra_gis_detect.py:38 | the base name holds no '/', is a suffix of the path, and is either the whole path or starts right after a '/' |
| InfraDetect.Stem | src/infra_gis_detect.py:38 | the stem is the name itself exactly when no dot of the name follows a non-dot character; otherwise it is the name cut at its last dot, which follows a non-dot character |
| InfraDetect.PoleIdFromPath | src/infra_gis_detect.py:36-38 | the base name without its extension; its properties are stated by PoleIdShape |
| InfraDetect.PoleIdShape | src/infra_gis_detect.py:36-38 | the pole id taken from a path holds no '/'; it is the whole base name exactly when the name has no extension (no dot after a non-dot character); otherwise the extension from the last dot is removed and a non-dot character remains |
| InfraDetect.PoleIdExample | src/infra_gis_detect.py:36-38 | "site/P17.jpg" gives the pole id "P17" |
| InfraDetect.HiddenNameKept | src/infra_gis_detect.py:38 | a name with only a leading dot keeps it whole: ".hidden" stays ".hidden" |
| InfraDetect.DetectAttributes | src/infra_gis_detect.py:5-96 | the pole id is the one given or the file stem; the tag and OCR fields are the chosen candidate's; the pole type is the first mapped label's or wood, never unset; vegetation is set exactly when a label mentions it |
| GisCsv.AttributesRow | src/infra_gis_detect.py:104-106 | the row has exactly the five columns; it carries the pole id, tag name, pole type name and OCR text of the attributes; the vegetation cell is "True" when the flag is set and "False" otherwise |
| GisCsv.AttributesRowIsNew | src/infra_gis_detect.py:118-127 | the detector's row already has every column, so appending it as a new row writes it unchanged |
| GisCsv.PoleIdOf | src/infra_gis_detect.py:108 | the attributes' pole id, or "" when there is none |
| GisCsv.NewRow | src/infra_gis_detect.py:118-127 | a new row has exactly the five columns, each the attribute's value or "" |
| GisCsv.OverwriteContents | src/infra_gis_detect.py:114-117 | an updated row takes each listed field the attributes hold and keeps everything else |
| GisCsv.OverwriteIdempotent | src/infra_gis_detect.py:114-117 | updating a row twice with the same attributes equals updating it once |
| GisCsv.OverwriteKeepsId | src/infra_gis_detect.py:114-117 | updating a row never changes its pole id |
| GisCsv.SetWhere | src/infra_gis_detect.py:115-117 | one field is set on exactly the rows with the id; other rows are unchanged |
| GisCsv.Updated | src/infra_gis_detect.py:111-117 | the rows with the id are overwritten, the others kept, and the count is unchanged |
| GisCsv.UpdatedStep | src/infra_gis_detect.py:115-117 | one more field extends the update by that field alone |
| GisCsv.Upserted | src/infra_gis_detect.py:108-127 | the table after one write: a new one-row table, the rows with the id updated, or one row appended; its properties are stated by UpdateInPlace, AppendsOtherwise, CreatesOneRow and UpsertIdempotent |
| GisCsv.GisTable.WriteGisCsv | src/infra_gis_detect.py:98-127 | afterwards the table is on disk and its rows are the upsert of the old rows |
| GisCsv.GisTable.UpdateRows | src/infra_gis_detect.py:114-117 | the loop over fields overwrites the rows with the id |
| GisCsv.GisTable.SetField | src/infra_gis_detect.py:115-117 | the loop over rows sets one field on the rows with the id |
| GisCsv.UpdateInPlace | src/infra_gis_detect.py:111-117 | for a known id the row count is unchanged; rows with the id take the attributes and every other row is unchanged |
| GisCsv.AppendsOtherwise | src/infra_gis_detect.py:118-121 | for an empty or unknown id exactly one new row is appended |
| GisCsv.CreatesOneRow | src/infra_gis_detect.py:123-127 | with no prior file the table is that single new row |
| GisCsv.UpsertedHasPole | src/infra_gis_detect.py:98-127 | after the upsert the table holds a row with the pole id |
| GisCsv.UpsertIdempotent | src/infra_gis_detect.py:98-127 | writing the same attributes twice equals writing them once |
| GisCsv.RowAlreadyWritten | src/infra_gis_detect.py:114-121 | a freshly appended row is already up to date |
| GisCsv.EmptyIdAppendsAgain | src/infra_gis_detect.py:108-121 | with an empty pole id every write appends another row |
| PoleRecords.FlaggedContract | compare_demo.py:86-143 | flagged fields come in the fixed field order, at most four, and a field is flagged exactly when its flag is set |
| PoleRecords.StatusOf | compare_demo.py:172-178 | OK exactly at 80 or more, WARNING exactly from 50 to 79, HIGH RISK exactly below 50 |
| PoleRecords.StatusMonotone | compare_demo.py:172-178 | a higher score never has a worse status |
| PyNum.RoundHalfEven | compare_demo.py:170 | the nearest integer, with ties going to the even one |
| PyNum.RoundMonotone | compare_demo.py:170 | rounding never reverses the order of two scores |
| PyNum.Clamp100 | compare_demo.py:170 | the result lies in 0..100, equal to the input inside that range |
| PyNum.NatToStringValue | src/infra_gis_detect.py:71 | the printed digits denote the number |
| PyNum.FormatFixed2 | src/infra_gis_detect.py:71 | the text ends in a point and two digits; the value those digits carry is stated by FormatFixed2Value |
| PyNum.FormatFixed2Value | src/infra_gis_detect.py:71 | the text starts with '-' exactly for a negative value, and the rest reads as the magnitude rounded half to even to hundredths |
| PyNum.CentsValue | src/infra_gis_detect.py:71 | the units and the two decimals written for a count of hundredths read back as that count |
| PyNum.TwoDigitsValue | src/infra_gis_detect.py:71 | the two decimals written for a number below 100 read back as it |
| AsciiText.Strip | compare_demo.py:35 | the stripped text has no surrounding whitespace and is never longer |
| AsciiText.StripSlice | compare_demo.py:35 | the stripped text is a slice with only whitespace cut off either end, and empty exactly when the text is all whitespace |
| AsciiText.Lower | compare_demo.py:35 | each character is lower-cased and the length is unchanged |
| AsciiText.SplitJoin | app.py:81 | joining the pieces of a split gives back the text |
| AsciiText.SplitAppend | app.py:81 | splitting at one separator gives the pieces before it followed by the pieces after it |
| AsciiText.SplitNone | app.py:81 | a text without the separator is a single piece |
| AsciiText.ReplaceCharAppend | app.py:81 | replacement works part by part over a concatenation |
| AsciiText.ReplaceCharAbsent | app.py:81 | a text without the replaced character is unchanged |
| AsciiText.RemoveCharAppend | Preprocessing/process.py:49 | removal works part by part over a concatenation, keeping the order |
| AsciiText.RemoveCharOne | Preprocessing/process.py:49 | one character is dropped exactly when it is the removed one |
| AsciiText.RemoveAbsent | Preprocessing/process.py:49 | a text without the removed character is unchanged |

## Left out

- Reading the GIS table and writing reports as CSV or JSON, with their timestamped file names, is
  file-system work. The table is an input. The required-column check keeps only its set difference.
- The Streamlit pages, session state and `test.py` are user interface and are left out.
- Image preprocessing, the recognition engines, the object detector, the Flask route and CORS are
  left out. Their outputs (text, confidence, labels) are inputs. `reader.readtext` and the class-name
  lookup are not modelled.
- The detector's FileNotFoundError for an unreadable image and its ImportError for a missing
  detection or recognition package are left out with the detector itself.
- `src/run_infra_detect.py` imports a function the detector module does not define and has no logic.
- The `best_id` tracking of the detector is computed but never used, so it is left out.
- The `difflib` similarity ratio is an abstract parameter in [0,1]. Its Ratcliff/Obershelp
  computation is not modelled.
- GisReconcile.FuzzyConfidenceAtLeastCutoff: needs the ratio to be symmetric. The source matches
  with `ratio(alias, word)` but reports `ratio(word, alias)`, and `difflib` does not promise these agree.
- A missing key and a pandas NaN are both an absent cell. pandas' type inference on reload is left
  out: cells are text and the vegetation flag is written as "True" or "False".
- GisCsv.UpdateInPlace: holds only for ids that pandas keeps as text. When every `pole_id` in the
  file looks like a number, `pd.read_csv` reads the column as integers, the membership test for
  the text id fails, and the source appends another row instead of updating the existing one.
- GisCsv.UpsertIdempotent: holds only for ids that pandas keeps as text, for the same reason: with
  an all-numeric `pole_id` column, every write of the same record appends a duplicate row.
- Missing columns are modelled only where `compare_demo.py` checks them, as GisReconcile.MissingColumns
  (the ValueError of `load_gis`). The KeyError that `app.py` and `pages/pole.py` raise when a GIS
  record lacks one of the compared columns is not modelled: their records always have all four fields.
  `write_gis_csv` raises a KeyError when the existing table has no `pole_id` column and the id is
  non-empty; that path is not modelled, and rows without the column are simply never matched. Any
  other missing column is added by its assignment, as the upsert here does.
- Character classes (`isspace`, `isdigit`, `isalnum`, `upper`, `lower`) are modelled on ASCII only.
- Confidences and scores are reals, not binary floats. Every score in the risk formula is a multiple
  of 0.5, so the two agree there.
- `str()` of non-text values (numbers, booleans) is not modelled: the exact comparators take text.
- ExactCompare.ComputeRisk: the `.get` defaults ("No", "Yes") are not modelled. Every field is present
  in the model, and a missing field costs nothing there, as with the defaults.
- The exception path of the pole-id suggestion (an OCR failure returning None) is left out, because
  the recognised text is an input.
- TagServer.TryAllPreprocesses: takes any number of passes, not exactly the four preprocessings.
- TagServer.SortByConf: Python's merge sort is modelled as a stable insertion sort. Both give the
  same result on every input.
- The detector's own alias table maps "composite" to wood, unlike the engine's table. The two are
  kept apart as in the source.
- PoleReview.Compare and PoleReview.ComputeRisk: delegate to ExactCompare, because `pages/pole.py`
  repeats `app.py`'s code.
