# CureCast symptom search and prediction core, in Dafny

CureCast lets a user pick symptoms from a catalogue and asks a classifier
which diseases they point to. This project models the logic around the
classifier:

- the ranked symptom search of the richer selector component (`fuzzySearch`);
- the plain substring filter of the minimal selector component;
- the click handler both selectors use to toggle a symptom;
- the disease dictionary's search filter;
- on the backend, how each catalogue disease gets a severity and a
  specialist, the one-row feature vector built from the selected symptoms,
  and the `/predict` post-processing that keeps the three most likely
  classes and left-joins them with the catalogue.

Modules:

- `Seqs` holds generic `filter`/`map` and facts about them.
- `Text` holds ASCII lower-casing, `startsWith` and `includes`.
- `Selection` holds the toggle.
- `SymptomSelector` holds the ranked search, with the worked example in
  `SymptomSelectorExamples`.
- `SymptomSelectorMinimal` holds the plain filter.
- `DiseaseDictionary` holds the dictionary search.
- `Backend` holds the backend.

The ranked search scores an entry 10 for a prefix match and 5 for a match
elsewhere, then subtracts 0.1 for every character of length difference.
The model counts in exact tenths: 100 or 50, minus the length difference.
The result is specified without the pipeline that computes it. It holds the
unselected catalogue entries that survive (`Survives`, defined without
scores), ordered best score first, with equal scores in catalogue order.
`StableSortIsUnique` shows that this description fixes the result
completely.

`infer_specialist` loops over the keyword table. It is modelled as a method
with a `while` loop (`InferSpecialist`) proved equal to a first-match
specification function. `build_feature_frame` is modelled as a method that
fills a fresh `array<int>` with nested loops, proved equal to an indicator
vector.

## Model

| member | source | states |
|---|---|---|
| Selection.ToggleFlipsMembership | frontend/src/components/SymptomSelector.jsx:7-13 | after a click the symptom is selected exactly when it was not selected before |
| Selection.ToggleShape | frontend/src/components/SymptomSelector.jsx:8-12 | a selected symptom is removed, every occurrence of it and no other element (each other symptom keeps its multiplicity), and the rest keep their order; an unselected one is appended at the end and nothing else moves |
| Selection.ToggleKeepsOthers | frontend/src/components/SymptomSelector.jsx:9 | the other symptoms keep their order and multiplicity |
| Selection.RemoveSingleOccurrence | frontend/src/components/SymptomSelector.jsx:9 | removing a symptom that occurs once shortens the list by exactly one |
| Selection.ToggleKeepsNoDuplicates | frontend/src/components/SymptomSelector.jsx:7-13 | a duplicate-free selection stays duplicate-free, and its length changes by exactly one |
| Selection.ToggleTwiceRestores | frontend/src/components/SymptomSelector.tsx:12-18 | clicking an unselected symptom twice gives back the original list |
| Text.Lower | frontend/src/components/SymptomSelector.jsx:18 | lower-casing keeps the length and leaves no upper-case letter |
| Text.IncludesIffOccurs | frontend/src/components/SymptomSelector.jsx:28 | `includes` holds exactly when the term occurs at some offset |
| SymptomSelector.Score | frontend/src/components/SymptomSelector.jsx:23-33 | the score is at most 10 (100 tenths); a positive score requires the entry to contain the term |
| SymptomSelector.ScorePositiveIffSurvives | frontend/src/components/SymptomSelector.jsx:26-37 | an entry passes the `score > 0` filter exactly when the score-free rule `Survives` holds (prefix and length difference under 100, or a match elsewhere and length difference under 50) |
| SymptomSelector.PrefixOutscoresInnerMatch | frontend/src/components/SymptomSelector.jsx:26-33 | among entries of equal length, a prefix match outscores one that does not start with the term |
| SymptomSelector.InsertByScore | frontend/src/components/SymptomSelector.jsx:38 | inserting one element adds exactly that element |
| SymptomSelector.InsertKeepsOrder | frontend/src/components/SymptomSelector.jsx:38 | inserting into a best-first sequence keeps it best first |
| SymptomSelector.SortByScore | frontend/src/components/SymptomSelector.jsx:38 | the sort is a permutation of its input, with scores non-increasing |
| SymptomSelector.SortKeepsTies | frontend/src/components/SymptomSelector.jsx:38 | the sort is stable: for every score, the elements with that score keep their input order |
| SymptomSelector.StableSortIsUnique | frontend/src/components/SymptomSelector.jsx:38 | any best-first arrangement that keeps every tie group in input order is the sort's result |
| SymptomSelector.FuzzySearchEmptyTerm | frontend/src/components/SymptomSelector.jsx:16 | an empty term gives no suggestions |
| SymptomSelector.FuzzySearchMembership | frontend/src/components/SymptomSelector.jsx:20-39 | an entry is suggested exactly when it is in the catalogue, not selected, and survives the scoring |
| SymptomSelector.FuzzySearchExcludesSelected | frontend/src/components/SymptomSelector.jsx:21 | a selected symptom is never suggested |
| SymptomSelector.FuzzySearchMatchesTerm | frontend/src/components/SymptomSelector.jsx:26-37 | every suggestion contains the term, ignoring case |
| SymptomSelector.FuzzySearchDrawsFromCatalogue | frontend/src/components/SymptomSelector.jsx:20-39 | suggestions never repeat an entry more often than the catalogue has it |
| SymptomSelector.FuzzySearchIsPermutation | frontend/src/components/SymptomSelector.jsx:20-39 | the suggestions are a rearrangement of the eligible catalogue entries |
| SymptomSelector.FuzzySearchIsOrdered | frontend/src/components/SymptomSelector.jsx:38 | suggestions are listed best score first |
| SymptomSelector.FuzzySearchIsStable | frontend/src/components/SymptomSelector.jsx:38 | suggestions with equal scores keep catalogue order |
| SymptomSelector.FuzzySearchIsStableSortOfEligible | frontend/src/components/SymptomSelector.jsx:15-42 | the result is the stable best-first sort of the eligible entries, taken in catalogue order |
| SymptomSelector.PrefixMatchListedFirst | frontend/src/components/SymptomSelector.jsx:26-38 | of two suggestions of equal length, a prefix match is listed before one that does not start with the term |
| SymptomSelectorExamples.FeverExample | frontend/src/components/SymptomSelector.jsx:15-42 | for "fev" over fever, feverish, cough and chest pain with nothing selected, the suggestions are exactly fever then feverish |
| SymptomSelectorExamples.CoughExample | frontend/src/components/SymptomSelector.jsx:15-42 | for "cough" over cough, dry cough and headache with cough selected, the only suggestion is dry cough |
| SymptomSelectorExamples.NoMatchExample | frontend/src/components/SymptomSelector.jsx:15-42 | for "xyz", which no catalogue entry contains, there are no suggestions |
| SymptomSelectorMinimal.FilteredSymptomsMembership | frontend/src/components/SymptomSelector.tsx:20-22 | a symptom is listed exactly when it is in the catalogue and contains the term, ignoring case |
| SymptomSelectorMinimal.FilteredSymptomsInCatalogueOrder | frontend/src/components/SymptomSelector.tsx:20-22 | the list is a subsequence of the catalogue, and filtering it again changes nothing |
| SymptomSelectorMinimal.FilteredSymptomsEmptyTerm | frontend/src/components/SymptomSelector.tsx:10 | with the initial empty term the whole catalogue is listed |
| SymptomSelectorMinimal.SelectedStillListed | frontend/src/components/SymptomSelector.tsx:20-22 | a selected symptom that matches is still listed here, although the ranked search hides it |
| SymptomSelectorMinimal.RankedSearchIsSubsetOfPlainFilter | frontend/src/components/SymptomSelector.tsx:20-22 | the ranked search's entries, in catalogue order, are a subsequence of this list, and its result draws only from this list |
| DiseaseDictionary.FilteredDiseasesMembership | frontend/src/components/DiseaseDictionary.jsx:30-32 | a disease is listed exactly when its name contains the term, ignoring case |
| DiseaseDictionary.FilteredDiseasesInCatalogueOrder | frontend/src/components/DiseaseDictionary.jsx:30-32 | the list keeps catalogue order, repeats nothing beyond the catalogue, and filtering it again with the same term changes nothing |
| DiseaseDictionary.InitialListIsWholeCatalogue | frontend/src/components/DiseaseDictionary.jsx:11 | with the initial empty term the whole catalogue is listed |
| DiseaseDictionary.SearchIgnoresCase | frontend/src/components/DiseaseDictionary.jsx:31 | the case of the typed term does not change the list |
| DiseaseDictionary.LongerTermNarrows | frontend/src/components/DiseaseDictionary.jsx:30-32 | extending the term can only narrow the list, keeping order |
| Backend.FirstMatchFrom | backend/main.py:73-75 | the position returned is the first keyword, from the start position on, that the name contains, or the end of the table |
| Backend.InferSpecialist | backend/main.py:71-76 | the loop returns the first-match specialist `SpecialistOf` |
| Backend.SpecialistOfIsFirstMatch | backend/main.py:71-76 | if keyword k is contained and no earlier one is, the answer is keyword k's specialist |
| Backend.GeneralPhysicianIffNoKeyword | backend/main.py:73-76 | "General Physician" is returned exactly when no keyword occurs in the lower-cased name |
| Backend.HeartGoesToCardiologist | backend/main.py:46-76 | a name containing "heart" goes to the cardiologist, although "heart" also contains the later keyword "ear" |
| Backend.SpecialistOfIsKnown | backend/main.py:46-76 | every answer is one of the table's specialists or "General Physician" |
| Backend.SpecialistIgnoresCase | backend/main.py:81-83 | labelling the lower-cased name gives the same specialist as labelling the name |
| Backend.SeverityOf | backend/main.py:82 | the severity is "Severe", "Moderate" or "Mild" |
| Backend.MildIffNotOverridden | backend/main.py:31-44 | a disease is "Mild" exactly when it has no severity override |
| Backend.LoadDiseaseCatalog | backend/main.py:78-84 | one catalogue record per CSV row |
| Backend.LoadedCatalogIsWellLabelled | backend/main.py:78-84 | record i keeps row i's name and count, its normalised name is the lower-cased name, and its severity and specialist are labelled as above |
| Backend.CatalogEntryIsWellLabelled | backend/main.py:80-83 | a labelled record has a known severity, is "Mild" exactly when not overridden, and has a known specialist |
| Backend.BuildFeatureFrame | backend/main.py:103-113 | returns a fresh vector over the vocabulary whose column j is 1 if symptom j was selected and 0 otherwise |
| Backend.FeatureVectorIsIndicator | backend/main.py:103-113 | every column is 0 or 1, and 1 exactly when its symptom was selected |
| Backend.FeatureVectorIgnoresOrderAndExtras | backend/main.py:110-112 | the order of the selection, repetitions and names outside the vocabulary do not change the vector |
| Backend.FeatureVectorOfUnknownSymptoms | backend/main.py:104-111 | a selection the vocabulary does not know gives the all-zero row |
| Backend.JoinRow | backend/main.py:151-161 | one class yields one record per matching catalogue record, record i carrying the severity, specialist and sample count of the i-th match in catalogue order, or a single record filled with "Unknown" and "General Physician" when nothing matches; each record keeps the class name and the probability times 100 |
| Backend.LeftJoinOnePerRow | backend/main.py:151-156 | with distinct catalogue names the join keeps one record per class, in the classes' order |
| Backend.LeftJoinRecordsFromRows | backend/main.py:151-161 | for any catalogue, every record is merged from one of the joined classes |
| Backend.PredictWithoutSymptoms | backend/main.py:135-138 | a missing or empty symptom list gives an empty response |
| Backend.PredictTopThree | backend/main.py:144-161 | with symptoms and distinct catalogue names, the response has min(3, classes) records, record i merged from the i-th most likely class |
| Backend.PredictRecordsComeFromTopThree | backend/main.py:144-161 | every record comes from one of the three most likely classes; when the classes are ranked, no record has a lower percentage than a dropped class |
| Backend.PredictLabelsAreKnown | backend/main.py:151-161 | with the catalogue as loaded, every severity is a catalogue severity or "Unknown", and every specialist is one the backend can name |
| Backend.DuplicateNamesGiveFourRecords | backend/main.py:144-161 | when two catalogue records share a lower-cased name, three classes give four records, so the top-3 bound needs distinct names |

## Left out

- Scores use exact tenths rather than JavaScript doubles. Rounding in `score -= … * 0.1` could split a tie between a prefix match and a substring match whose exact scores are equal. The model does not reproduce any such rounding effect.
- `Array.prototype.sort` is modelled by a stable insertion sort. `StableSortIsUnique` shows that every stable best-first sort gives the same result.
- String lengths count code points (`|s|` over `char`), not UTF-16 code units as JavaScript's `.length` does. For an entry or a term holding a character outside the Basic Multilingual Plane, such as an emoji, the length difference in the score, and with it the ranking and the survival cut-offs, differ from the source's.
- Lower-casing is ASCII only. JavaScript's `toLowerCase` and Python's `lower` also map non-ASCII letters, and some of those mappings change the length.
- React state, rendering, animation, the axios requests to the backend, the dictionary's fetch-once effect (DiseaseDictionary.jsx lines 14-28) and loading flags are not modelled. The selected list and the search term are parameters, and the toggle returns the list handed to the state setter.
- Flask routes, JSON (de)serialisation, CORS and log output are not modelled. `get_symptoms` and `get_diseases` only return data already modelled.
- `load_artifact` and reading the pickle, and reading the CSV and stripping its column names, are not modelled. The vocabulary and the CSV rows (`CsvRow`) are parameters.
- The classifier's `predict_proba`, the label encoder and `sort_values` by probability are not modelled. `sort_values` is not a stable sort in general. `Predict` takes the classes already ranked, and does not call `BuildFeatureFrame`, whose vector the classifier consumes.
- `Predict` accepts only a missing or list-valued `symptoms`. Other falsy JSON values would also give an empty response, and other non-list values are not modelled.
- The float32 dtype of the feature frame is not modelled: its 0.0/1.0 cells are integers 0/1. Percentages are exact reals, with no float rounding.
- A missing `Sample_Count` (NaN after the join) is modelled as `None`.
- Backend.PredictTopThree: "at most three records" is proved only for catalogues without two diseases of the same lower-cased name. With such duplicates the left join emits one record per match, which `JoinRow` states, and `DuplicateNamesGiveFourRecords` exhibits three classes giving four records.
- The application shell, landing page, prediction cards and outputs, skeleton card, Tailwind configuration and `train.py` are not part of this model.
