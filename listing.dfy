/** The selection made by the [wishlist] shortcode: which wishlists are shown,
    without the markup around them. */
module Listing {
  import opened Gifts
  import opened Legacy

  type WishlistId = string

  /** `!empty(get_post_meta($id, 'wpgr_wishlist', true))`: a missing meta value
      and an empty list both count as empty. */
  predicate Shown(lists: map<WishlistId, seq<Gift>>, id: WishlistId)
  {
    id in lists && |lists[id]| > 0
  }

  /** The "all" view: the ids, in order, whose stored list is non-empty. */
  function NonEmptyIds(ids: seq<WishlistId>, lists: map<WishlistId, seq<Gift>>): seq<WishlistId>
  {
    if |ids| == 0 then []
    else (if Shown(lists, ids[0]) then [ids[0]] else []) + NonEmptyIds(ids[1..], lists)
  }

  /** An id is listed exactly when it is among the ids and its list is non-empty. */
  lemma {:induction false} NonEmptyIdsMembers(ids: seq<WishlistId>, lists: map<WishlistId, seq<Gift>>)
    ensures forall x :: x in NonEmptyIds(ids, lists) <==> x in ids && Shown(lists, x)
  {
    if |ids| > 0 {
      NonEmptyIdsMembers(ids[1..], lists);
      assert ids == [ids[0]] + ids[1..];
    }
  }

  /** The selection keeps the original order: it distributes over concatenation. */
  lemma {:induction false} NonEmptyIdsAppend(a: seq<WishlistId>, b: seq<WishlistId>, lists: map<WishlistId, seq<Gift>>)
    ensures NonEmptyIds(a + b, lists) == NonEmptyIds(a, lists) + NonEmptyIds(b, lists)
  {
    if |a| > 0 {
      assert (a + b)[0] == a[0] && (a + b)[1..] == a[1..] + b;
      NonEmptyIdsAppend(a[1..], b, lists);
    } else {
      assert a + b == b;
    }
  }

  /** The selection never adds ids: it is no longer than its input, and equal
      to it when every list is non-empty. */
  lemma {:induction false} NonEmptyIdsBound(ids: seq<WishlistId>, lists: map<WishlistId, seq<Gift>>)
    ensures |NonEmptyIds(ids, lists)| <= |ids|
    ensures (forall i :: 0 <= i < |ids| ==> Shown(lists, ids[i])) ==> NonEmptyIds(ids, lists) == ids
  {
    if |ids| > 0 {
      NonEmptyIdsBound(ids[1..], lists);
      assert ids == [ids[0]] + ids[1..];
    }
  }

  /** The shortcode's `id` attribute: absent (None), "all", or one wishlist id. */
  type Attribute = Option<string>

  /** What the shortcode renders. */
  datatype View =
    | Nothing                       // empty output
    | Single(id: WishlistId)        // the single-wishlist template
    | Links(ids: seq<WishlistId>)   // a list of links, possibly with no entries
    | LegacyList                    // the legacy single-list template

  /** The branch structure of the shortcode over the stored lists, the ids of
      all wishlist posts and the legacy list. */
  function Render(id: Attribute, allIds: seq<WishlistId>, lists: map<WishlistId, seq<Gift>>,
                  legacy: seq<LegacyGift>): View
  {
    match id
    case None => if |legacy| > 0 then LegacyList else Nothing
    case Some(w) =>
      if w != "all" then (if Shown(lists, w) then Single(w) else Nothing)
      else if |allIds| == 0 then Nothing
      else Links(NonEmptyIds(allIds, lists))
  }

  /** The single view and the "all" view agree: a wishlist among the posts is
      rendered on its own exactly when the "all" view links to it. */
  lemma SingleAgreesWithAll(w: WishlistId, allIds: seq<WishlistId>, lists: map<WishlistId, seq<Gift>>,
                            legacy: seq<LegacyGift>)
    requires w != "all" && w in allIds
    ensures Render(Some(w), allIds, lists, legacy) == Single(w) <==>
            w in Render(Some("all"), allIds, lists, legacy).ids
  {
    NonEmptyIdsMembers(allIds, lists);
  }
}
