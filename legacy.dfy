/** The legacy schema: one flat gift list kept in the 'wishlist' option under
    'wishlist_group', matched by title and without a ledger. */
module Legacy {

  /** A gift of the legacy list; `details` holds the fields no operation reads. */
  datatype LegacyGift = LegacyGift(title: string, availability: string, details: map<string, string>)

  /** The foreach loop of the legacy branch: every gift whose title is
      identical to the sanitised name takes the supplied availability; every
      other gift, and every other field, is left as it was. */
  method SetAvailabilityByTitle(group: seq<LegacyGift>, name: string, v: string) returns (r: seq<LegacyGift>)
    ensures |r| == |group|
    ensures forall i :: 0 <= i < |group| ==>
              r[i] == if group[i].title == name then group[i].(availability := v) else group[i]
  {
    r := group;
    for i := 0 to |r|
      invariant |r| == |group|
      invariant forall j :: 0 <= j < i ==>
                  r[j] == if group[j].title == name then group[j].(availability := v) else group[j]
      invariant forall j :: i <= j < |r| ==> r[j] == group[j]
    {
      if r[i].title == name {
        r := r[i := r[i].(availability := v)];
      }
    }
  }
}
