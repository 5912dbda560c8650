/** app/services/classification_service.py: the service that classifies
    licenses through the Groq pipeline and keeps the results in an
    in-memory dictionary keyed by license name. */
module ClassificationService {
  import opened Wrappers
  import opened Config
  import opened PyDict
  import opened Schemas
  import opened CategoryCounts
  import GroqService

  /** What the service's dictionary always satisfies: every stored
      classification passed the model's validators and is stored under its
      own license name. */
  ghost predicate StorageValid(d: Dict<LicenseClassification>) {
    && d.Valid()
    && forall k :: k in d.entries ==> d.entries[k].WellFormed() && d.entries[k].licenseName == k
  }

  /** The exceptions the service raises to its callers. */
  datatype ServiceError =
    | KeyError(message: string)
    | Invalid(validation: ValidationError)

  function NotFoundMessage(licenseName: string): string {
    "License '" + licenseName + "' not found"
  }

  /** The outcome of `groq_service.classify_license` for one license: the
      (category, explanation) pair, or the message of the exception it
      raised. */
  type GroqResult = Result<(string, string), string>

  /** `classify_license` without the store: the Groq pair becomes a
      `LicenseClassification` whose fields are exactly that pair (its
      explanation already fits, so the validator does not cut it); a Groq
      exception propagates. */
  function Classified(licenseName: string, groq: GroqResult): (r: Result<LicenseClassification, string>)
    requires GroqService.MeetsContract(groq)
    ensures r.Success? <==> groq.Success?
    ensures r.Success? ==>
      && r.value.WellFormed()
      && r.value == LicenseClassification(licenseName, groq.value.0, groq.value.1)
    ensures r.Failure? ==> r.error == groq.error
  {
    match groq
    case Failure(e) => Failure(e)
    case Success(pair) => Success(NewLicenseClassification(licenseName, pair.0, pair.1).value)
  }

  const FallbackExplanation: string := "Classification error occurred. Default category assigned."

  /** The result `classify_multiple` substitutes for a license whose
      classification raised. */
  function Fallback(licenseName: string): (r: LicenseClassification)
    ensures r.WellFormed() && r.licenseName == licenseName && r.category == DefaultCategory
    ensures r.explanation == FallbackExplanation
  {
    LicenseClassification(licenseName, DefaultCategory, FallbackExplanation)
  }

  /** Item `i` of `classify_multiple`'s result: the classification when the
      call succeeded, the fallback when it raised. Either way it carries the
      input name and is well formed. */
  function BatchItem(licenseName: string, groq: GroqResult): (r: LicenseClassification)
    requires GroqService.MeetsContract(groq)
    ensures r.licenseName == licenseName && r.WellFormed()
    ensures groq.Success? ==> r.category == groq.value.0 && r.explanation == groq.value.1
    ensures groq.Failure? ==> r == Fallback(licenseName)
  {
    match Classified(licenseName, groq)
    case Success(c) => c
    case Failure(_) => Fallback(licenseName)
  }

  /** Every Groq result of a batch meets the Groq service's contract. */
  predicate AllMeetContract(groqs: seq<GroqResult>) {
    forall i :: 0 <= i < |groqs| ==> GroqService.MeetsContract(groqs[i])
  }

  /** The result list of a batch, item by item. */
  function BatchItems(names: seq<string>, groqs: seq<GroqResult>): (r: seq<LicenseClassification>)
    requires |groqs| == |names| && AllMeetContract(groqs)
    ensures |r| == |names|
    ensures forall i :: 0 <= i < |names| ==> r[i] == BatchItem(names[i], groqs[i])
  {
    seq(|names|, i requires 0 <= i < |names| => BatchItem(names[i], groqs[i]))
  }

  /** Writes `self._storage[c.license_name] = c` for a successful
      classification and nothing for a failed one. */
  function Store(d: Dict<LicenseClassification>, outcome: Result<LicenseClassification, string>)
    : (r: Dict<LicenseClassification>)
    requires StorageValid(d)
    requires outcome.Success? ==> outcome.value.WellFormed()
    ensures StorageValid(r)
  {
    match outcome
    case Success(c) => d.Set(c.licenseName, c)
    case Failure(_) => d
  }

  /** Every successful outcome in a batch is well formed. */
  ghost predicate OutcomesWellFormed(outcomes: seq<Result<LicenseClassification, string>>) {
    forall i :: 0 <= i < |outcomes| && outcomes[i].Success? ==> outcomes[i].value.WellFormed()
  }

  /** The store after a batch: each outcome is stored in turn. */
  function StoreAll(d: Dict<LicenseClassification>, outcomes: seq<Result<LicenseClassification, string>>)
    : (r: Dict<LicenseClassification>)
    requires StorageValid(d) && OutcomesWellFormed(outcomes)
    ensures StorageValid(r)
    decreases |outcomes|
  {
    if outcomes == [] then d
    else
      var n := |outcomes| - 1;
      Store(StoreAll(d, outcomes[..n]), outcomes[n])
  }

  /** Storing one more outcome. */
  lemma StoreAllSnoc(d: Dict<LicenseClassification>, outcomes: seq<Result<LicenseClassification, string>>, i: int)
    requires StorageValid(d) && OutcomesWellFormed(outcomes) && 0 <= i < |outcomes|
    ensures StoreAll(d, outcomes[..i + 1]) == Store(StoreAll(d, outcomes[..i]), outcomes[i])
  {
    assert outcomes[..i + 1][..i] == outcomes[..i];
  }

  /** A name no successful outcome carries keeps its stored value: failed
      items and fallbacks are never written. */
  lemma {:induction false} StoreAllUntouched(
    d: Dict<LicenseClassification>, outcomes: seq<Result<LicenseClassification, string>>, k: string)
    requires StorageValid(d) && OutcomesWellFormed(outcomes)
    requires forall i :: 0 <= i < |outcomes| && outcomes[i].Success? ==> outcomes[i].value.licenseName != k
    ensures StoreAll(d, outcomes).Get(k) == d.Get(k)
    decreases |outcomes|
  {
    if outcomes != [] {
      var n := |outcomes| - 1;
      StoreAllUntouched(d, outcomes[..n], k);
    }
  }

  /** For a name some outcome classifies successfully, the last such outcome
      is what ends up stored. */
  lemma {:induction false} StoreAllLastWins(
    d: Dict<LicenseClassification>, outcomes: seq<Result<LicenseClassification, string>>, i: int)
    requires StorageValid(d) && OutcomesWellFormed(outcomes)
    requires 0 <= i < |outcomes| && outcomes[i].Success?
    requires forall j :: i < j < |outcomes| && outcomes[j].Success? ==>
      outcomes[j].value.licenseName != outcomes[i].value.licenseName
    ensures StoreAll(d, outcomes).Get(outcomes[i].value.licenseName) == Some(outcomes[i].value)
    decreases |outcomes|
  {
    var n := |outcomes| - 1;
    var init := outcomes[..n];
    assert StoreAll(d, outcomes) == Store(StoreAll(d, init), outcomes[n]);
    if i < n {
      assert init[i] == outcomes[i];
      assert OutcomesWellFormed(init);
      StoreAllLastWins(d, init, i);
    }
  }

  /** The outcome of each item of a batch. */
  function Outcomes(names: seq<string>, groqs: seq<GroqResult>)
    : (r: seq<Result<LicenseClassification, string>>)
    requires |groqs| == |names| && AllMeetContract(groqs)
    ensures |r| == |names| && OutcomesWellFormed(r)
    ensures forall i :: 0 <= i < |names| ==> r[i] == Classified(names[i], groqs[i])
  {
    seq(|names|, i requires 0 <= i < |names| => Classified(names[i], groqs[i]))
  }

  /** `classify_multiple`'s store, in terms of its inputs: a name whose
      items all failed, or that the batch does not mention, keeps its
      stored value. */
  lemma BatchUntouched(d: Dict<LicenseClassification>, names: seq<string>, groqs: seq<GroqResult>, k: string)
    requires StorageValid(d) && |groqs| == |names| && AllMeetContract(groqs)
    requires forall i :: 0 <= i < |names| && names[i] == k ==> groqs[i].Failure?
    ensures StoreAll(d, Outcomes(names, groqs)).Get(k) == d.Get(k)
  {
    StoreAllUntouched(d, Outcomes(names, groqs), k);
  }

  /** `classify_multiple`'s store, in terms of its inputs: the last
      successful item for a name is the one stored. */
  lemma BatchLastWins(d: Dict<LicenseClassification>, names: seq<string>, groqs: seq<GroqResult>, i: int)
    requires StorageValid(d) && |groqs| == |names| && AllMeetContract(groqs)
    requires 0 <= i < |names| && groqs[i].Success?
    requires forall j :: i < j < |names| && names[j] == names[i] ==> groqs[j].Failure?
    ensures StoreAll(d, Outcomes(names, groqs)).Get(names[i])
         == Some(LicenseClassification(names[i], groqs[i].value.0, groqs[i].value.1))
  {
    StoreAllLastWins(d, Outcomes(names, groqs), i);
  }

  /** Every category `get_statistics` reports is one of the six: the store
      only holds validated classifications. */
  lemma StatisticsCategoriesValid(d: Dict<LicenseClassification>)
    requires StorageValid(d)
    ensures forall c :: c in StatisticsOf(d).categoryDistribution.entries ==> c in ValidCategories
  {
    var values := d.Values();
    var categories := CategoriesOf(values);
    TallyKeys(categories);
    forall c | c in StatisticsOf(d).categoryDistribution.entries ensures c in ValidCategories {
      var i :| 0 <= i < |categories| && categories[i] == c;
      assert values[i] == d.entries[d.keys[i]];
    }
  }

  /** An update request that passed its own validation always rebuilds into
      a classification with exactly its fields: the `ValidationError` the
      rebuild could raise never happens. */
  lemma UpdateRebuildSucceeds(licenseName: string, update: UpdateLicenseRequest)
    requires update.WellFormed()
    ensures NewLicenseClassification(licenseName, update.category, update.explanation)
         == Success(LicenseClassification(licenseName, update.category, update.explanation))
  {
  }

  class ClassificationService {
    /** `_storage` */
    var storage: Dict<LicenseClassification>

    ghost predicate Valid()
      reads this
    {
      StorageValid(storage)
    }

    constructor()
      ensures Valid() && storage == Empty()
    {
      storage := Empty();
    }

    /** `classify_license`: `groq` is what `groq_service.classify_license`
        returned for the name. On success the classification is stored under
        the license name and returned; on failure the exception propagates
        and nothing is stored. */
    method ClassifyLicense(licenseName: string, groq: GroqResult)
      returns (r: Result<LicenseClassification, string>)
      requires Valid() && GroqService.MeetsContract(groq)
      modifies this
      ensures Valid()
      ensures r == Classified(licenseName, groq)
      ensures storage == Store(old(storage), r)
    {
      match groq
      case Failure(e) =>
        r := Failure(e);
      case Success(pair) =>
        var classification := NewLicenseClassification(licenseName, pair.0, pair.1).value;
        storage := storage.Set(licenseName, classification);
        r := Success(classification);
    }

    /** `classify_multiple`: one result per name, in order; a failing item
        yields the fallback and the loop goes on; only successes are stored. */
    method ClassifyMultiple(licenseNames: seq<string>, groqs: seq<GroqResult>)
      returns (results: seq<LicenseClassification>)
      requires Valid() && |groqs| == |licenseNames| && AllMeetContract(groqs)
      modifies this
      ensures Valid()
      ensures results == BatchItems(licenseNames, groqs)
      ensures storage == StoreAll(old(storage), Outcomes(licenseNames, groqs))
    {
      ghost var outcomes := Outcomes(licenseNames, groqs);
      ghost var items := BatchItems(licenseNames, groqs);
      results := [];
      for i := 0 to |licenseNames|
        invariant Valid()
        invariant results == items[..i]
        invariant storage == StoreAll(old(storage), outcomes[..i])
      {
        var r := ClassifyLicense(licenseNames[i], groqs[i]);
        StoreAllSnoc(old(storage), outcomes, i);
        assert items[..i + 1] == items[..i] + [items[i]];
        match r
        case Success(classification) =>
          results := results + [classification];
        case Failure(_) =>
          results := results + [Fallback(licenseNames[i])];
      }
      assert outcomes[..|outcomes|] == outcomes;
      assert items[..|items|] == items;
    }

    /** `get_all_classifications`: the stored classifications in insertion
        order, one per stored name. */
    function GetAllClassifications(): (r: seq<LicenseClassification>)
      reads this
      requires Valid()
      ensures |r| == |storage.keys| == |storage.entries|
      ensures forall i :: 0 <= i < |r| ==> r[i].licenseName == storage.keys[i] && r[i].WellFormed()
      ensures forall i :: 0 <= i < |r| ==> r[i] == storage.entries[storage.keys[i]]
    {
      LenIsKeyCount(storage);
      storage.Values()
    }

    /** `get_classification`: the stored classification, or None. */
    function GetClassification(licenseName: string): (r: Option<LicenseClassification>)
      reads this
      requires Valid()
      ensures r.Some? <==> licenseName in storage.entries
      ensures r.Some? ==> r.value.licenseName == licenseName && r.value.WellFormed()
      ensures r.Some? ==> r.value == storage.entries[licenseName]
    {
      storage.Get(licenseName)
    }

    /** `update_classification`: KeyError for an unknown name, storage
        unchanged; otherwise the request's fields, revalidated, replace that
        one entry. */
    method UpdateClassification(licenseName: string, update: UpdateLicenseRequest)
      returns (r: Result<LicenseClassification, ServiceError>)
      requires Valid()
      modifies this
      ensures Valid()
      ensures licenseName !in old(storage.entries) ==> r == Failure(KeyError(NotFoundMessage(licenseName)))
      ensures licenseName in old(storage.entries) ==>
        match NewLicenseClassification(licenseName, update.category, update.explanation)
        case Success(c) => r == Success(c)
        case Failure(v) => r == Failure(Invalid(v))
      ensures storage == if r.Success? then old(storage).Set(licenseName, r.value) else old(storage)
    {
      if licenseName !in storage.entries {
        return Failure(KeyError(NotFoundMessage(licenseName)));
      }
      match NewLicenseClassification(licenseName, update.category, update.explanation)
      case Failure(v) =>
        r := Failure(Invalid(v));
      case Success(updated) =>
        storage := storage.Set(licenseName, updated);
        r := Success(updated);
    }

    /** `delete_classification`: KeyError for an unknown name; otherwise the
        stored classification is returned and exactly that key removed. */
    method DeleteClassification(licenseName: string)
      returns (r: Result<LicenseClassification, ServiceError>)
      requires Valid()
      modifies this
      ensures Valid()
      ensures licenseName !in old(storage.entries) ==>
        r == Failure(KeyError(NotFoundMessage(licenseName))) && storage == old(storage)
      ensures licenseName in old(storage.entries) ==>
        r == Success(old(storage).entries[licenseName]) && storage == old(storage).Pop(licenseName)
    {
      if licenseName !in storage.entries {
        return Failure(KeyError(NotFoundMessage(licenseName)));
      }
      var deleted := storage.entries[licenseName];
      storage := storage.Pop(licenseName);
      r := Success(deleted);
    }

    /** `get_statistics`: the early return for an empty store and the
        counting loop both give the statistics of the store. */
    method GetStatistics() returns (stats: Statistics)
      requires Valid()
      ensures stats == StatisticsOf(storage)
    {
      if storage.entries == map[] {
        EmptyHasNoKeys(storage);
        return Statistics(0, Empty(), []);
      }
      var counts := CountCategories(storage.Values());
      LenIsKeyCount(storage);
      stats := Statistics(|storage.entries|, counts, storage.keys);
    }

    /** `clear_all` */
    method ClearAll()
      modifies this
      ensures Valid() && storage == Empty()
    {
      storage := Empty();
    }
  }
}
