/**
  The adaptation-plan form hook: a record of five text fields edited one
  field at a time, and the request that turns the form into a plan, with its
  loading flag, error message and last result. The request's outcome is a
  parameter.
*/
module Adaptnet {
  import opened ClimaTypes
  import Fetch

  /** The five text fields of the form, named as the inputs name them. */
  datatype Field = CommunityName | Population | Feature1 | Feature2 | Feature3

  function FieldName(k: Field): string {
    match k
    case CommunityName => "community_name"
    case Population => "population"
    case Feature1 => "feature_1"
    case Feature2 => "feature_2"
    case Feature3 => "feature_3"
  }

  /** The field an input's `name` attribute refers to, if it is one of the five. */
  function FieldNamed(name: string): (r: Option<Field>)
    ensures r.Some? ==> FieldName(r.value) == name
    ensures r.None? ==> forall k: Field :: FieldName(k) != name
  {
    if name == "community_name" then Some(CommunityName)
    else if name == "population" then Some(Population)
    else if name == "feature_1" then Some(Feature1)
    else if name == "feature_2" then Some(Feature2)
    else if name == "feature_3" then Some(Feature3)
    else None
  }

  /** Names and fields correspond one to one. */
  lemma FieldNamesRoundTrip(k: Field)
    ensures FieldNamed(FieldName(k)) == Some(k)
  {
  }

  datatype FormData = FormData(
    community_name: string,
    population: string,
    feature_1: string,
    feature_2: string,
    feature_3: string)

  const EmptyForm := FormData("", "", "", "", "")

  function Get(f: FormData, k: Field): string {
    match k
    case CommunityName => f.community_name
    case Population => f.population
    case Feature1 => f.feature_1
    case Feature2 => f.feature_2
    case Feature3 => f.feature_3
  }

  /** `{ ...prev, [name]: value }` for one of the five names. */
  function Set(f: FormData, k: Field, value: string): (r: FormData)
    ensures Get(r, k) == value
    ensures forall j: Field :: j != k ==> Get(r, j) == Get(f, j)
  {
    match k
    case CommunityName => f.(community_name := value)
    case Population => f.(population := value)
    case Feature1 => f.(feature_1 := value)
    case Feature2 => f.(feature_2 := value)
    case Feature3 => f.(feature_3 := value)
  }

  /** A form is determined by its five fields. */
  lemma FormsWithEqualFieldsAreEqual(f: FormData, g: FormData)
    requires forall k: Field :: Get(f, k) == Get(g, k)
    ensures f == g
  {
    assert Get(f, CommunityName) == Get(g, CommunityName);
    assert Get(f, Population) == Get(g, Population);
    assert Get(f, Feature1) == Get(g, Feature1);
    assert Get(f, Feature2) == Get(g, Feature2);
    assert Get(f, Feature3) == Get(g, Feature3);
  }

  /** Writing back what a field holds changes nothing; writing twice keeps the last value. */
  lemma SetProperties(f: FormData, k: Field, v: string, w: string)
    ensures Set(f, k, Get(f, k)) == f
    ensures Set(Set(f, k, v), k, w) == Set(f, k, w)
  {
    FormsWithEqualFieldsAreEqual(Set(f, k, Get(f, k)), f);
    FormsWithEqualFieldsAreEqual(Set(Set(f, k, v), k, w), Set(f, k, w));
  }

  /** Edits of two different fields commute. */
  lemma SetCommutes(f: FormData, j: Field, v: string, k: Field, w: string)
    requires j != k
    ensures Set(Set(f, j, v), k, w) == Set(Set(f, k, w), j, v)
  {
    FormsWithEqualFieldsAreEqual(Set(Set(f, j, v), k, w), Set(Set(f, k, w), j, v));
  }

  /** The result of an input change on the five fields. */
  function Edited(f: FormData, name: string, value: string): (r: FormData)
    ensures FieldNamed(name).Some? ==> Get(r, FieldNamed(name).value) == value
    ensures forall k: Field :: FieldName(k) != name ==> Get(r, k) == Get(f, k)
  {
    match FieldNamed(name)
    case Some(k) => Set(f, k, value)
    case None => f
  }

  /** What the plan service sends back. */
  datatype AdaptationResult = AdaptationResult(community_name: string, population: int, recommendation: string)

  const PlanFailedMessage := "Failed to generate adaptation plan"

  class Adaptnet {
    var loading: bool
    var error: Option<string>
    var adaptationResult: Option<AdaptationResult>
    var formData: FormData

    constructor ()
      ensures formData == EmptyForm
      ensures !loading && error.None? && adaptationResult.None?
    {
      loading := false;
      error := None;
      adaptationResult := None;
      formData := EmptyForm;
    }

    /** `handleInputChange`: the named field takes the value; the other fields keep theirs. */
    method HandleInputChange(name: string, value: string)
      modifies this
      ensures formData == Edited(old(formData), name, value)
      ensures loading == old(loading) && error == old(error) && adaptationResult == old(adaptationResult)
    {
      formData := Edited(formData, name, value);
    }

    /** The start of `generatePlan`: loading, with the previous error cleared. */
    method BeginRequest()
      modifies this
      ensures loading && error.None?
      ensures adaptationResult == old(adaptationResult) && formData == old(formData)
    {
      loading := true;
      error := None;
    }

    /**
      The end of `generatePlan`: a plan replaces the previous one; a failed
      response or an exception keeps the previous plan and sets the message;
      loading ends in every case.
    */
    method CompleteRequest(outcome: Fetch.Outcome<AdaptationResult>)
      modifies this
      ensures !loading
      ensures outcome.Ok? ==> adaptationResult == Some(outcome.data) && error == old(error)
      ensures outcome.NotOk? ==> adaptationResult == old(adaptationResult) && error == Some(PlanFailedMessage)
      ensures outcome.Threw? ==>
        && adaptationResult == old(adaptationResult)
        && error == Some(Fetch.CaughtMessage(outcome.thrown))
      ensures formData == old(formData)
    {
      match outcome {
        case Ok(data) =>
          adaptationResult := Some(data);
        case NotOk =>
          // the code throws `new Error(...)` and catches it at once
          error := Some(Fetch.CaughtMessage(Fetch.ErrorInstance(PlanFailedMessage)));
        case Threw(t) =>
          error := Some(Fetch.CaughtMessage(t));
      }
      loading := false;
    }

    /** `generatePlan` run to its end with the given outcome. */
    method GeneratePlan(outcome: Fetch.Outcome<AdaptationResult>)
      modifies this
      ensures !loading
      ensures outcome.Ok? ==> adaptationResult == Some(outcome.data) && error.None?
      ensures outcome.NotOk? ==> adaptationResult == old(adaptationResult) && error == Some(PlanFailedMessage)
      ensures outcome.Threw? ==>
        && adaptationResult == old(adaptationResult)
        && error == Some(Fetch.CaughtMessage(outcome.thrown))
      ensures formData == old(formData)
    {
      BeginRequest();
      CompleteRequest(outcome);
    }

    /** `resetForm`: empty fields, no plan, no error; the loading flag is left alone. */
    method ResetForm()
      modifies this
      ensures formData == EmptyForm && adaptationResult.None? && error.None?
      ensures loading == old(loading)
    {
      formData := EmptyForm;
      adaptationResult := None;
      error := None;
    }
  }
}
