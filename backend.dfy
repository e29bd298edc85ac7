/** The Flask backend: the disease catalogue it labels on start-up (severity
    and specialist per disease), the one-row feature vector it feeds the
    classifier, and the `/predict` post-processing that keeps the three
    most likely classes and left-joins them with the catalogue. */
module Backend {
  import opened Seqs
  import opened Text

  datatype Option<T> = None | Some(value: T)

  const GeneralPhysician: string := "General Physician"

  /** `SEVERITY_OVERRIDES`, keyed by lower-cased disease name. */
  const SeverityOverrides: map<string, string> := map[
    "heart attack" := "Severe",
    "stroke" := "Severe",
    "cancer" := "Severe",
    "kidney failure" := "Severe",
    "pneumonia" := "Severe",
    "covid-19" := "Severe",
    "diabetes" := "Moderate",
    "hypertension" := "Moderate",
    "asthma" := "Moderate",
    "arthritis" := "Moderate",
    "depression" := "Moderate",
    "heart failure" := "Severe"
  ]

  /** `SPECIALIST_KEYWORDS` in the dictionary's insertion order, which is
      the order `infer_specialist` tries the keywords in. */
  const SpecialistKeywords: seq<(string, string)> := [
    ("heart", "Cardiologist"),
    ("cardio", "Cardiologist"),
    ("stroke", "Neurologist"),
    ("brain", "Neurologist"),
    ("lung", "Pulmonologist"),
    ("respiratory", "Pulmonologist"),
    ("asthma", "Pulmonologist"),
    ("pneumonia", "Pulmonologist"),
    ("kidney", "Nephrologist"),
    ("renal", "Nephrologist"),
    ("liver", "Hepatologist"),
    ("diabetes", "Endocrinologist"),
    ("thyroid", "Endocrinologist"),
    ("mental", "Psychiatrist"),
    ("depression", "Psychiatrist"),
    ("bone", "Orthopedic Surgeon"),
    ("fracture", "Orthopedic Surgeon"),
    ("skin", "Dermatologist"),
    ("dermatitis", "Dermatologist"),
    ("eye", "Ophthalmologist"),
    ("ear", "ENT Specialist"),
    ("sinus", "ENT Specialist")
  ]

  /** Every specialist the backend can name. */
  const SpecialistNames: set<string> := {
    "Cardiologist", "Neurologist", "Pulmonologist", "Nephrologist",
    "Hepatologist", "Endocrinologist", "Psychiatrist", "Orthopedic Surgeon",
    "Dermatologist", "Ophthalmologist", "ENT Specialist", GeneralPhysician
  }

  /** The severities a catalogue entry can carry. */
  const SeverityLevels: set<string> := {"Severe", "Moderate", "Mild"}

  // ---------------------------------------------------------------
  // Specialist inference
  // ---------------------------------------------------------------

  /** The position of the first entry of `keywords`, from `i` on, whose
      keyword occurs in `name`, or the table's length when none does. */
  function FirstMatchFrom(keywords: seq<(string, string)>, name: string, i: nat): (k: nat)
    requires i <= |keywords|
    ensures i <= k <= |keywords|
    ensures forall j :: i <= j < k ==> !Includes(name, keywords[j].0)
    ensures k < |keywords| ==> Includes(name, keywords[k].0)
    decreases |keywords| - i
  {
    if i == |keywords| then i
    else if Includes(name, keywords[i].0) then i
    else FirstMatchFrom(keywords, name, i + 1)
  }

  /** What `infer_specialist` returns for `disease`. */
  function SpecialistOf(disease: string): string
  {
    var k := FirstMatchFrom(SpecialistKeywords, Lower(disease), 0);
    if k < |SpecialistKeywords| then SpecialistKeywords[k].1 else GeneralPhysician
  }

  /** `infer_specialist`: try the keywords in table order and return the
      specialist of the first one contained in the lower-cased name. */
  method InferSpecialist(disease: string) returns (specialist: string)
    ensures specialist == SpecialistOf(disease)
  {
    var name := Lower(disease);
    var i := 0;
    while i < |SpecialistKeywords|
      invariant 0 <= i <= |SpecialistKeywords|
      invariant FirstMatchFrom(SpecialistKeywords, name, i) == FirstMatchFrom(SpecialistKeywords, name, 0)
    {
      var entry := SpecialistKeywords[i];
      if Includes(name, entry.0) {
        return entry.1;
      }
      i := i + 1;
    }
    return GeneralPhysician;
  }

  /** The table names only specialists, never the fallback. */
  lemma TableSpecialists()
    ensures forall j :: 0 <= j < |SpecialistKeywords| ==>
      SpecialistKeywords[j].1 in SpecialistNames && SpecialistKeywords[j].1 != GeneralPhysician
  {
  }

  /** The specialist is the one of the first keyword in table order that
      the lower-cased name contains. */
  lemma {:induction false} SpecialistOfIsFirstMatch(disease: string, k: nat)
    requires k < |SpecialistKeywords|
    requires Includes(Lower(disease), SpecialistKeywords[k].0)
    requires forall j :: 0 <= j < k ==> !Includes(Lower(disease), SpecialistKeywords[j].0)
    ensures SpecialistOf(disease) == SpecialistKeywords[k].1
  {
    assert FirstMatchFrom(SpecialistKeywords, Lower(disease), 0) == k;
  }

  /** The fallback is taken exactly when no keyword occurs in the name. */
  lemma {:induction false} GeneralPhysicianIffNoKeyword(disease: string)
    ensures SpecialistOf(disease) == GeneralPhysician
        <==> forall j :: 0 <= j < |SpecialistKeywords| ==> !Includes(Lower(disease), SpecialistKeywords[j].0)
  {
    TableSpecialists();
  }

  /** A name mentioning "heart" goes to the cardiologist, even when it also
      contains a later keyword such as "ear" (as "heart" itself does). */
  lemma {:induction false} HeartGoesToCardiologist(disease: string)
    requires Includes(Lower(disease), "heart")
    ensures SpecialistOf(disease) == "Cardiologist"
  {
    SpecialistOfIsFirstMatch(disease, 0);
  }

  /** Every answer is a specialist from the table or the general physician. */
  lemma {:induction false} SpecialistOfIsKnown(disease: string)
    ensures SpecialistOf(disease) in SpecialistNames
  {
    TableSpecialists();
  }

  /** The catalogue labels the lower-cased name; the outcome is the same as
      labelling the name as written. */
  lemma {:induction false} SpecialistIgnoresCase(disease: string)
    ensures SpecialistOf(Lower(disease)) == SpecialistOf(disease)
  {
    LowerIdempotent(disease);
  }

  // ---------------------------------------------------------------
  // Severity
  // ---------------------------------------------------------------

  /** `Disease_norm.map(SEVERITY_OVERRIDES).fillna("Mild")`. */
  function SeverityOf(diseaseNorm: string): (severity: string)
    ensures severity in SeverityLevels
  {
    if diseaseNorm in SeverityOverrides then SeverityOverrides[diseaseNorm] else "Mild"
  }

  /** A disease is "Mild" exactly when it has no override: no override says "Mild". */
  lemma {:induction false} MildIffNotOverridden(diseaseNorm: string)
    ensures SeverityOf(diseaseNorm) == "Mild" <==> diseaseNorm !in SeverityOverrides
  {
    if diseaseNorm in SeverityOverrides {
      assert forall n :: n in SeverityOverrides ==> SeverityOverrides[n] != "Mild";
    }
  }

  // ---------------------------------------------------------------
  // Disease catalogue
  // ---------------------------------------------------------------

  /** One row of the disease CSV. */
  datatype CsvRow = CsvRow(disease: string, sampleCount: int)

  /** One record of `DISEASE_CATALOG`. */
  datatype CatalogEntry = CatalogEntry(
    disease: string,
    diseaseNorm: string,
    sampleCount: int,
    severity: string,
    specialist: string)

  function CatalogEntryOf(row: CsvRow): CatalogEntry
  {
    var norm := Lower(row.disease);
    CatalogEntry(row.disease, norm, row.sampleCount, SeverityOf(norm), SpecialistOf(norm))
  }

  /** What every catalogue record satisfies once labelled. */
  ghost predicate WellLabelled(e: CatalogEntry)
  {
    && e.diseaseNorm == Lower(e.disease)
    && e.severity in SeverityLevels
    && (e.severity == "Mild" <==> e.diseaseNorm !in SeverityOverrides)
    && e.specialist == SpecialistOf(e.disease)
    && e.specialist in SpecialistNames
  }

  /** `load_disease_catalog`, after the CSV has been read. */
  function LoadDiseaseCatalog(rows: seq<CsvRow>): (catalog: seq<CatalogEntry>)
    ensures |catalog| == |rows|
  {
    Map(rows, CatalogEntryOf)
  }

  /** The catalogue has one record per CSV row, in order, keeping the name
      and count, and every record is labelled consistently. */
  lemma {:induction false} LoadedCatalogIsWellLabelled(rows: seq<CsvRow>, i: int)
    requires 0 <= i < |rows|
    ensures LoadDiseaseCatalog(rows)[i].disease == rows[i].disease
    ensures LoadDiseaseCatalog(rows)[i].sampleCount == rows[i].sampleCount
    ensures WellLabelled(LoadDiseaseCatalog(rows)[i])
  {
    assert LoadDiseaseCatalog(rows)[i] == CatalogEntryOf(rows[i]);
    CatalogEntryIsWellLabelled(rows[i]);
  }

  lemma {:induction false} CatalogEntryIsWellLabelled(row: CsvRow)
    ensures WellLabelled(CatalogEntryOf(row))
  {
    var norm := Lower(row.disease);
    MildIffNotOverridden(norm);
    SpecialistIgnoresCase(row.disease);
    SpecialistOfIsKnown(row.disease);
  }

  // ---------------------------------------------------------------
  // Feature frame
  // ---------------------------------------------------------------

  /** The one-row feature vector over the symptom vocabulary: column `j`
      holds 1 when the symptom named by column `j` was selected, 0 otherwise. */
  ghost function FeatureVector(vocabulary: seq<string>, selected: seq<string>): seq<int>
  {
    seq(|vocabulary|, j requires 0 <= j < |vocabulary| => if vocabulary[j] in selected then 1 else 0)
  }

  function InVocabulary(vocabulary: seq<string>): string -> bool
  {
    s => s in vocabulary
  }

  /** `build_feature_frame`: a zero row over the vocabulary, then a 1 in the
      column of every selected symptom that is in the vocabulary. */
  method BuildFeatureFrame(vocabulary: seq<string>, selected: seq<string>) returns (vector: array<int>)
    ensures fresh(vector)
    ensures vector[..] == FeatureVector(vocabulary, selected)
  {
    vector := new int[|vocabulary|](_ => 0);
    var active := Filter(selected, InVocabulary(vocabulary));
    if active != [] {
      for a := 0 to |active|
        invariant forall j :: 0 <= j < vector.Length ==> vector[j] == if vocabulary[j] in active[..a] then 1 else 0
      {
        assert active[..a + 1] == active[..a] + [active[a]];
        for j := 0 to |vocabulary|
          invariant forall i :: 0 <= i < j ==> vector[i] == if vocabulary[i] in active[..a + 1] then 1 else 0
          invariant forall i :: j <= i < vector.Length ==> vector[i] == if vocabulary[i] in active[..a] then 1 else 0
        {
          if vocabulary[j] == active[a] {
            vector[j] := 1;
          }
        }
      }
      assert active[..|active|] == active;
    }
    forall j | 0 <= j < |vocabulary| ensures vocabulary[j] in active <==> vocabulary[j] in selected {
      FilterMembership(selected, InVocabulary(vocabulary), vocabulary[j]);
    }
  }

  /** Every column holds 0 or 1, and a column is 1 exactly when its symptom
      was selected. */
  lemma {:induction false} FeatureVectorIsIndicator(vocabulary: seq<string>, selected: seq<string>, j: int)
    requires 0 <= j < |vocabulary|
    ensures |FeatureVector(vocabulary, selected)| == |vocabulary|
    ensures FeatureVector(vocabulary, selected)[j] in {0, 1}
    ensures FeatureVector(vocabulary, selected)[j] == 1 <==> vocabulary[j] in selected
  {
  }

  /** Only which symptoms were selected matters: not their order, not
      repetitions, and not names outside the vocabulary. */
  lemma {:induction false} FeatureVectorIgnoresOrderAndExtras(vocabulary: seq<string>, selected: seq<string>, other: seq<string>)
    requires forall s :: s in vocabulary ==> (s in selected <==> s in other)
    ensures FeatureVector(vocabulary, selected) == FeatureVector(vocabulary, other)
  {
    forall j | 0 <= j < |vocabulary|
      ensures FeatureVector(vocabulary, selected)[j] == FeatureVector(vocabulary, other)[j]
    {
      assert vocabulary[j] in vocabulary;
    }
  }

  /** Nothing selected, or nothing the vocabulary knows: the all-zero row. */
  lemma {:induction false} FeatureVectorOfUnknownSymptoms(vocabulary: seq<string>, selected: seq<string>)
    requires forall s :: s in selected ==> s !in vocabulary
    ensures forall j :: 0 <= j < |vocabulary| ==> FeatureVector(vocabulary, selected)[j] == 0
  {
    forall j | 0 <= j < |vocabulary| ensures FeatureVector(vocabulary, selected)[j] == 0 {
      assert vocabulary[j] in vocabulary;
    }
  }

  // ---------------------------------------------------------------
  // Prediction
  // ---------------------------------------------------------------

  /** One class with the probability the classifier gave it. */
  datatype ClassProbability = ClassProbability(disease: string, probability: real)

  /** One record of the `/predict` response. */
  datatype Prediction = Prediction(
    disease: string,
    percent: real,
    severity: string,
    specialist: string,
    sampleCount: Option<int>)

  /** `.head(3)`. */
  const TopCount: nat := 3

  function Min(a: int, b: int): int
  {
    if a < b then a else b
  }

  function HasNorm(diseaseNorm: string): CatalogEntry -> bool
  {
    (e: CatalogEntry) => e.diseaseNorm == diseaseNorm
  }

  /** The catalogue records whose normalised name is the class's, in catalogue order. */
  function Matches(row: ClassProbability, catalog: seq<CatalogEntry>): seq<CatalogEntry>
  {
    Filter(catalog, HasNorm(Lower(row.disease)))
  }

  function MergedWith(row: ClassProbability): CatalogEntry -> Prediction
  {
    (e: CatalogEntry) => Prediction(row.disease, row.probability * 100.0, e.severity, e.specialist, Some(e.sampleCount))
  }

  /** How a response record relates to the class it came from: same name,
      the probability as a percentage, and either the labels of a matching
      catalogue record or, when there is none, the fill-in values. */
  ghost predicate MergedFrom(p: Prediction, row: ClassProbability, catalog: seq<CatalogEntry>)
  {
    && p.disease == row.disease
    && p.percent == row.probability * 100.0
    && if Matches(row, catalog) == [] then
         p.severity == "Unknown" && p.specialist == GeneralPhysician && p.sampleCount == None
       else
         exists e :: e in catalog && e.diseaseNorm == Lower(row.disease)
           && p.severity == e.severity && p.specialist == e.specialist && p.sampleCount == Some(e.sampleCount)
  }

  /** The left join of one class with the catalogue, with `fillna` applied:
      one record per matching catalogue record, record i taking the labels
      of match i, or one filled-in record when nothing matches. */
  function JoinRow(row: ClassProbability, catalog: seq<CatalogEntry>): (r: seq<Prediction>)
    ensures |r| == if Matches(row, catalog) == [] then 1 else |Matches(row, catalog)|
    ensures forall i :: 0 <= i < |r| ==> MergedFrom(r[i], row, catalog)
    ensures Matches(row, catalog) != [] ==> forall i :: 0 <= i < |r| ==>
      && r[i].severity == Matches(row, catalog)[i].severity
      && r[i].specialist == Matches(row, catalog)[i].specialist
      && r[i].sampleCount == Some(Matches(row, catalog)[i].sampleCount)
  {
    var matches := Matches(row, catalog);
    if matches == [] then
      [Prediction(row.disease, row.probability * 100.0, "Unknown", GeneralPhysician, None)]
    else
      var r := Map(matches, MergedWith(row));
      assert forall i :: 0 <= i < |r| ==> r[i] == MergedWith(row)(matches[i]) && matches[i] in catalog;
      r
  }

  /** `df.merge(DISEASE_CATALOG, on="Disease_norm", how="left")` followed by
      `fillna`: the left rows in order, each expanded by `JoinRow`. */
  function LeftJoin(rows: seq<ClassProbability>, catalog: seq<CatalogEntry>): seq<Prediction>
    decreases |rows|
  {
    if rows == [] then [] else JoinRow(rows[0], catalog) + LeftJoin(rows[1..], catalog)
  }

  /** `predict`, given the classes already ranked by probability: no
      symptoms (missing or empty) gives no records; otherwise the first
      three classes are joined with the catalogue. */
  function Predict(symptoms: Option<seq<string>>, ranked: seq<ClassProbability>, catalog: seq<CatalogEntry>): seq<Prediction>
  {
    if symptoms.None? || symptoms.value == [] then []
    else LeftJoin(ranked[..Min(TopCount, |ranked|)], catalog)
  }

  /** No two catalogue records share a normalised name. */
  ghost predicate DistinctNorms(catalog: seq<CatalogEntry>)
  {
    forall i, j :: 0 <= i < j < |catalog| ==> catalog[i].diseaseNorm != catalog[j].diseaseNorm
  }

  lemma {:induction false} AtMostOneMatch(catalog: seq<CatalogEntry>, diseaseNorm: string)
    requires DistinctNorms(catalog)
    ensures |Filter(catalog, HasNorm(diseaseNorm))| <= 1
    decreases |catalog|
  {
    if catalog != [] {
      if catalog[0].diseaseNorm == diseaseNorm {
        assert forall i :: 0 <= i < |catalog[1..]| ==> !HasNorm(diseaseNorm)(catalog[1..][i]) by {
          forall i | 0 <= i < |catalog[1..]| ensures !HasNorm(diseaseNorm)(catalog[1..][i]) {
            assert catalog[1..][i] == catalog[i + 1];
          }
        }
        FilterKeepsNone(catalog[1..], HasNorm(diseaseNorm));
      } else {
        AtMostOneMatch(catalog[1..], diseaseNorm);
      }
    }
  }

  /** Record `i` of `records` is merged from class `i` of `rows`, for every `i`. */
  ghost predicate MergedPointwise(records: seq<Prediction>, rows: seq<ClassProbability>, catalog: seq<CatalogEntry>)
  {
    |records| == |rows| && forall i :: 0 <= i < |rows| ==> MergedFrom(records[i], rows[i], catalog)
  }

  lemma MergedPointwiseCons(p: Prediction, records: seq<Prediction>, row: ClassProbability, rows: seq<ClassProbability>, catalog: seq<CatalogEntry>)
    requires MergedFrom(p, row, catalog) && MergedPointwise(records, rows, catalog)
    ensures MergedPointwise([p] + records, [row] + rows, catalog)
  {
    var r, c := [p] + records, [row] + rows;
    forall i | 0 <= i < |c| ensures MergedFrom(r[i], c[i], catalog) {
      if i > 0 {
        assert r[i] == records[i - 1] && c[i] == rows[i - 1];
      }
    }
  }

  /** With distinct catalogue names a class joins to exactly one record. */
  lemma JoinRowSingle(row: ClassProbability, catalog: seq<CatalogEntry>)
    requires DistinctNorms(catalog)
    ensures |JoinRow(row, catalog)| == 1
    ensures MergedFrom(JoinRow(row, catalog)[0], row, catalog)
  {
    AtMostOneMatch(catalog, Lower(row.disease));
  }

  lemma LeftJoinCons(rows: seq<ClassProbability>, catalog: seq<CatalogEntry>)
    requires rows != []
    ensures LeftJoin(rows, catalog) == JoinRow(rows[0], catalog) + LeftJoin(rows[1..], catalog)
  {
  }

  /** With distinct catalogue names the join keeps one record per class, in
      the classes' order. */
  lemma {:induction false} LeftJoinOnePerRow(rows: seq<ClassProbability>, catalog: seq<CatalogEntry>)
    requires DistinctNorms(catalog)
    ensures MergedPointwise(LeftJoin(rows, catalog), rows, catalog)
    decreases |rows|
  {
    if rows != [] {
      var head, tail := JoinRow(rows[0], catalog), LeftJoin(rows[1..], catalog);
      LeftJoinCons(rows, catalog);
      JoinRowSingle(rows[0], catalog);
      LeftJoinOnePerRow(rows[1..], catalog);
      MergedPointwiseCons(head[0], tail, rows[0], rows[1..], catalog);
      assert head == [head[0]];
      assert rows == [rows[0]] + rows[1..];
    }
  }

  /** Whatever the catalogue, every record comes from one of the joined classes. */
  lemma {:induction false} LeftJoinRecordsFromRows(rows: seq<ClassProbability>, catalog: seq<CatalogEntry>, p: Prediction)
    requires p in LeftJoin(rows, catalog)
    ensures exists i :: 0 <= i < |rows| && MergedFrom(p, rows[i], catalog)
    decreases |rows|
  {
    var head := JoinRow(rows[0], catalog);
    if p in head {
      var k :| 0 <= k < |head| && head[k] == p;
      assert MergedFrom(p, rows[0], catalog);
    } else {
      LeftJoinRecordsFromRows(rows[1..], catalog, p);
      var i :| 0 <= i < |rows[1..]| && MergedFrom(p, rows[1..][i], catalog);
      assert rows[1..][i] == rows[i + 1];
    }
  }

  /** A missing or empty symptom list gets an empty response. */
  lemma PredictWithoutSymptoms(symptoms: Option<seq<string>>, ranked: seq<ClassProbability>, catalog: seq<CatalogEntry>)
    requires symptoms == None || symptoms == Some([])
    ensures Predict(symptoms, ranked, catalog) == []
  {
  }

  /** With symptoms and a catalogue without repeated names, the response
      has one record per class among the three most likely, in rank order,
      each carrying its class's name, percentage and labels. */
  lemma {:induction false} PredictTopThree(symptoms: Option<seq<string>>, ranked: seq<ClassProbability>, catalog: seq<CatalogEntry>)
    requires symptoms.Some? && symptoms.value != []
    requires DistinctNorms(catalog)
    ensures |Predict(symptoms, ranked, catalog)| == Min(TopCount, |ranked|) <= TopCount
    ensures forall i :: 0 <= i < |Predict(symptoms, ranked, catalog)| ==> MergedFrom(Predict(symptoms, ranked, catalog)[i], ranked[i], catalog)
  {
    var top := ranked[..Min(TopCount, |ranked|)];
    LeftJoinOnePerRow(top, catalog);
    assert forall i :: 0 <= i < |top| ==> top[i] == ranked[i];
    assert MergedPointwise(LeftJoin(top, catalog), top, catalog);
  }

  /** For any catalogue, every record names one of the three most likely
      classes and is merged from it; when the classes are ranked by
      probability no record has a lower percentage than a dropped class. */
  lemma {:induction false} PredictRecordsComeFromTopThree(symptoms: Option<seq<string>>, ranked: seq<ClassProbability>, catalog: seq<CatalogEntry>, p: Prediction)
    requires p in Predict(symptoms, ranked, catalog)
    ensures exists i :: 0 <= i < TopCount && i < |ranked| && MergedFrom(p, ranked[i], catalog)
    ensures (forall i, j :: 0 <= i < j < |ranked| ==> ranked[i].probability >= ranked[j].probability) ==>
      forall j :: TopCount <= j < |ranked| ==> p.percent >= ranked[j].probability * 100.0
  {
    var top := ranked[..Min(TopCount, |ranked|)];
    LeftJoinRecordsFromRows(top, catalog, p);
    var i :| 0 <= i < |top| && MergedFrom(p, top[i], catalog);
    assert top[i] == ranked[i];
  }

  /** With a catalogue as loaded at start-up, every record's severity is a
      catalogue severity or "Unknown", and its specialist is one the
      backend can name. */
  lemma {:induction false} PredictLabelsAreKnown(symptoms: Option<seq<string>>, ranked: seq<ClassProbability>, rows: seq<CsvRow>, p: Prediction)
    requires p in Predict(symptoms, ranked, LoadDiseaseCatalog(rows))
    ensures p.severity in SeverityLevels || p.severity == "Unknown"
    ensures p.specialist in SpecialistNames
  {
    var catalog := LoadDiseaseCatalog(rows);
    PredictRecordsComeFromTopThree(symptoms, ranked, catalog, p);
    var i :| 0 <= i < TopCount && i < |ranked| && MergedFrom(p, ranked[i], catalog);
    LoadedCatalogIsAllWellLabelled(rows);
    MergedLabelsAreKnown(p, ranked[i], catalog);
  }

  lemma {:induction false} LoadedCatalogIsAllWellLabelled(rows: seq<CsvRow>)
    ensures forall e :: e in LoadDiseaseCatalog(rows) ==> WellLabelled(e)
  {
    var catalog := LoadDiseaseCatalog(rows);
    forall e | e in catalog ensures WellLabelled(e) {
      var k :| 0 <= k < |catalog| && catalog[k] == e;
      LoadedCatalogIsWellLabelled(rows, k);
    }
  }

  /** A record merged from a well-labelled catalogue carries known labels. */
  lemma {:induction false} MergedLabelsAreKnown(p: Prediction, row: ClassProbability, catalog: seq<CatalogEntry>)
    requires MergedFrom(p, row, catalog)
    requires forall e :: e in catalog ==> WellLabelled(e)
    ensures p.severity in SeverityLevels || p.severity == "Unknown"
    ensures p.specialist in SpecialistNames
  {
    if Matches(row, catalog) != [] {
      var e :| e in catalog && e.diseaseNorm == Lower(row.disease)
        && p.severity == e.severity && p.specialist == e.specialist && p.sampleCount == Some(e.sampleCount);
      assert WellLabelled(e);
    }
  }

  /** A class whose lower-cased name two catalogue records share joins to
      both, so three classes can give four records: the "top 3" bound needs
      distinct catalogue names. */
  lemma DuplicateNamesGiveFourRecords(symptoms: Option<seq<string>>, ranked: seq<ClassProbability>, catalog: seq<CatalogEntry>)
    requires symptoms == Some(["fever"])
    requires ranked == [ClassProbability("flu", 0.6), ClassProbability("cold", 0.3), ClassProbability("cough", 0.1)]
    requires catalog == [CatalogEntry("Flu", "flu", 120, "Mild", GeneralPhysician),
                         CatalogEntry("FLU", "flu", 8, "Mild", GeneralPhysician)]
    ensures |Predict(symptoms, ranked, catalog)| == 4
  {
    assert ranked[..Min(TopCount, |ranked|)] == ranked;
    LowerOfLowerCase("flu");
    LowerOfLowerCase("cold");
    LowerOfLowerCase("cough");
    FilterKeepsAll(catalog, HasNorm("flu"));
    FilterKeepsNone(catalog, HasNorm("cold"));
    FilterKeepsNone(catalog, HasNorm("cough"));
    assert |JoinRow(ranked[0], catalog)| == 2;
    assert |JoinRow(ranked[1], catalog)| == 1;
    assert |JoinRow(ranked[2], catalog)| == 1;
    LeftJoinCons(ranked, catalog);
    LeftJoinCons(ranked[1..], catalog);
    LeftJoinCons(ranked[2..], catalog);
    assert ranked[1..][0] == ranked[1] && ranked[2..][0] == ranked[2] && ranked[2..][1..] == [];
  }
}
