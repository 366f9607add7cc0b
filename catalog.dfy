/** The customer-type catalog (the `customerTypes` global): an ordered list of
    records, loaded once and read-only afterwards, and the lookup the quiz
    result uses to turn a type tag into a record. */
module Catalog {
  import opened Wrappers

  /** One customer-type record of the catalog. Only `id` takes part in the
      logic; the other fields are carried for the renderer. */
  datatype CustomerType = CustomerType(
    id: string,
    name: string,
    icon: string,
    color: string,
    characteristics: seq<string>,
    traits: seq<string>,
    primaryMotivations: seq<string>,
    communicationStyle: string,
    decisionTime: string,
    engagementTips: seq<string>
  )

  /** `customerTypes.find(t => t.id === id)`: the first record whose id is
      `id`, or None (JavaScript's `undefined`) when no record has that id. */
  function FindType(catalog: seq<CustomerType>, id: string): (r: Option<CustomerType>)
    ensures r.None? <==> forall i :: 0 <= i < |catalog| ==> catalog[i].id != id
    ensures r.Some? ==> exists k :: 0 <= k < |catalog| && catalog[k] == r.value && FirstWithId(catalog, id, k)
  {
    if catalog == [] then None
    else if catalog[0].id == id then
      assert FirstWithId(catalog, id, 0);
      Some(catalog[0])
    else
      var r := FindType(catalog[1..], id);
      assert forall k :: FirstWithId(catalog[1..], id, k) ==> FirstWithId(catalog, id, k + 1);
      r
  }

  /** Index `k` holds the first record of the catalog whose id is `id`. */
  ghost predicate FirstWithId(catalog: seq<CustomerType>, id: string, k: int)
  {
    0 <= k < |catalog| && catalog[k].id == id &&
    forall j :: 0 <= j < k ==> catalog[j].id != id
  }
}
