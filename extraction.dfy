/** The location step of `extract_candidate_info`: the first known city named in the text. */
module Extraction {
  import opened Strings

  /** The cities the extractor looks for, in the order it tries them. */
  const Cities: seq<string> :=
    ["Mumbai", "Delhi", "Bangalore", "Hyderabad", "Chennai", "Kolkata", "Pune", "Ahmedabad"]

  predicate Mentions(text: string, city: string) {
    Occurs(Lower(city), Lower(text))
  }

  /** The first of `Cities[k..]` that `text` mentions, or `""`. */
  function FirstCityFrom(text: string, k: nat): (r: string)
    requires k <= |Cities|
    ensures r == "" ==> forall j :: k <= j < |Cities| ==> !Mentions(text, Cities[j])
    ensures r != "" ==> exists j :: k <= j < |Cities| && r == Cities[j] && Mentions(text, r)
                                    && forall m :: k <= m < j ==> !Mentions(text, Cities[m])
    decreases |Cities| - k
  {
    if k == |Cities| then ""
    else if Mentions(text, Cities[k]) then Cities[k]
    else FirstCityFrom(text, k + 1)
  }

  /**
    The location the extractor reports: the first city of `Cities` that
    occurs in the text ignoring case, or `""` when none does.
  */
  function DetectLocation(text: string): (r: string)
    ensures r == "" <==> forall j :: 0 <= j < |Cities| ==> !Mentions(text, Cities[j])
    ensures r != "" ==> exists j :: 0 <= j < |Cities| && r == Cities[j] && Mentions(text, r)
                                    && forall m :: 0 <= m < j ==> !Mentions(text, Cities[m])
  {
    FirstCityFrom(text, 0)
  }
}
