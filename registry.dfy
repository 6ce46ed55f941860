/** The public side of the plugin as it touches stored state: the reservation
    update behind the AJAX action and the selection of the [wishlist]
    shortcode. The platform's storage (post meta and options) is held in the
    fields of a Registry object. */
module GiftRegistry {
  import opened Gifts
  import opened Legacy
  import opened Listing

  /** The POST fields of an update request after sanitising, except the email,
      which is kept raw because the update itself applies the email check. */
  datatype Post = Post(
    version: string,
    wishlistId: WishlistId,
    giftId: GiftId,
    giftAvailability: string,
    giftHasParts: string,
    giftPartsReserved: int,
    giftReserver: string,
    giftReserverEmail: string,
    giftReserverMessage: string,
    itemName: string,
    availability: string)

  /** How the request ends: `die('Busted!')` or `die()`. */
  datatype Response = Busted | Done

  /** The new-schema request: an email that fails the check becomes "". */
  function ToRequest(post: Post, isEmail: string -> bool): (req: Request)
    ensures !isEmail(post.giftReserverEmail) ==> req.email == ""
    ensures isEmail(post.giftReserverEmail) ==> req.email == post.giftReserverEmail
  {
    Request(post.giftId, post.giftAvailability, post.giftHasParts, post.giftPartsReserved,
            post.giftReserver, if isEmail(post.giftReserverEmail) then post.giftReserverEmail else "",
            post.giftReserverMessage)
  }

  class Registry {
    /** Post meta 'wpgr_wishlist' per wishlist. */
    var lists: map<WishlistId, seq<Gift>>
    /** Post meta 'wpgr_reserved_gifts' per wishlist. */
    var reserved: map<WishlistId, Ledger>
    /** Option 'wishlist', entry 'wishlist_group'. */
    var legacy: seq<LegacyGift>

    constructor (lists: map<WishlistId, seq<Gift>>, reserved: map<WishlistId, Ledger>, legacy: seq<LegacyGift>)
      ensures this.lists == lists && this.reserved == reserved && this.legacy == legacy
    {
      this.lists := lists;
      this.reserved := reserved;
      this.legacy := legacy;
    }

    /** The two attributes of one wishlist as read: a missing or empty value
        reads as an empty list or ledger. */
    function Stored(w: WishlistId): Store
      reads this
    {
      Store(if w in lists then lists[w] else [], if w in reserved then reserved[w] else map[])
    }

    /** get_reserved_parts: the gift's running total when its ledger entry sets
        one, 0 otherwise. */
    function GetReservedParts(w: WishlistId, id: GiftId): (r: int)
      reads this
      ensures w in reserved && id in reserved[w] && reserved[w][id].partsReserved.Some? ==>
                r == reserved[w][id].partsReserved.value
      ensures !(w in reserved && id in reserved[w] && reserved[w][id].partsReserved.Some?) ==> r == 0
    {
      ReservedParts(Stored(w).ledger, id)
    }

    /** update_gift_availability. Without a valid nonce nothing changes. The
        new schema rewrites one wishlist's list and ledger as Reserve says; any
        other version rewrites the legacy list by title and leaves both post
        meta maps alone. */
    method UpdateGiftAvailability(nonceValid: bool, post: Post, isEmail: string -> bool, now: string)
      returns (response: Response)
      modifies this
      ensures response == if nonceValid then Done else Busted
      ensures !nonceValid ==> unchanged(this)
      ensures nonceValid && post.version == "new" ==>
                var s := Reserve(old(Stored(post.wishlistId)), ToRequest(post, isEmail), now);
                && lists == old(lists)[post.wishlistId := s.items]
                && reserved == old(reserved)[post.wishlistId := s.ledger]
                && legacy == old(legacy)
      ensures nonceValid && post.version != "new" ==>
                && lists == old(lists) && reserved == old(reserved)
                && |legacy| == |old(legacy)|
                && forall i :: 0 <= i < |legacy| ==>
                     legacy[i] == if old(legacy)[i].title == post.itemName
                                  then old(legacy)[i].(availability := post.availability)
                                  else old(legacy)[i]
    {
      if !nonceValid {
        return Busted;
      }
      if post.version == "new" {
        ReserveGift(post.wishlistId, ToRequest(post, isEmail), now);
      } else {
        legacy := SetAvailabilityByTitle(legacy, post.itemName, post.availability);
      }
      return Done;
    }

    /** The new-schema branch: read, compute and write back one wishlist's
        list and ledger. */
    method ReserveGift(w: WishlistId, req: Request, now: string)
      modifies this`lists, this`reserved
      ensures var s := Reserve(old(Stored(w)), req, now);
              lists == old(lists)[w := s.items] && reserved == old(reserved)[w := s.ledger]
    {
      ghost var s0 := Stored(w);
      ghost var s := Reserve(s0, req, now);
      var id, claimed := req.giftId, req.parts;
      var list := if w in lists then lists[w] else [];
      var found := SearchGiftId(list, id);
      var k := if found.Some? then found.value else 0;
      assert k == Slot(s0.items, id);
      var availability := req.availability;
      if req.hasParts == "true" {
        var total := if k < |list| then list[k].partsTotal else 0;
        availability := if GetReservedParts(w, id) + claimed != total then "true" else "false";
      }
      assert availability == NewAvailability(ReservedParts(s0.ledger, id), req, ReadSlot(s0.items, k).partsTotal);
      if k < |list| {
        list := list[k := list[k].(availability := availability)];
      } else {
        list := list + [Unset.(availability := availability)];
      }
      assert list == s.items;
      lists := lists[w := list];

      var ledger := if w in reserved then reserved[w] else map[];
      assert ledger == s0.ledger;
      var entry := if id in ledger then ledger[id] else NoEntry;
      var parts := if entry.partsReserved.Some? then entry.partsReserved.value else 0;
      entry := entry.(giftId := id, giftTitle := list[k].title, partsReserved := Some(parts + claimed),
                      partsTotal := list[k].partsTotal);
      entry := entry.(reservations := entry.reservations +
                      [Reservation(req.reserver, claimed, req.email, req.message, now)]);
      assert entry == s.ledger[id];
      reserved := reserved[w := ledger[id := entry]];
    }

    /** The loop of the "all" view: walks the post ids in order and keeps each
        one whose stored list is non-empty. */
    method ListAll(ids: seq<WishlistId>) returns (shown: seq<WishlistId>)
      ensures shown == NonEmptyIds(ids, lists)
    {
      shown := [];
      var i := 0;
      while i < |ids|
        invariant 0 <= i <= |ids|
        invariant shown + NonEmptyIds(ids[i..], lists) == NonEmptyIds(ids, lists)
      {
        if ids[i] in lists && |lists[ids[i]]| > 0 {
          shown := shown + [ids[i]];
        }
        i := i + 1;
      }
    }
  }

  /** A four-part gift claimed 1, 3 and 1 parts through the stored state, with
      a request carrying an invalid nonce in between: the overshoot makes the
      gift available again, the rejected request changes nothing, and the
      ledger keeps one record per accepted request. */
  method BikeClient(isEmail: string -> bool)
  {
    var bike := Gift("bike", "Bike", "true", 4, "true", map[]);
    var r := new Registry(map["w" := [bike]], map[], []);
    var claim := (n: int) => Post("new", "w", "bike", "true", "true", n, "Ann", "", "", "", "");
    var done := r.UpdateGiftAvailability(true, claim(1), isEmail, "20240101120000");
    assert r.lists["w"][0].availability == "true";
    done := r.UpdateGiftAvailability(true, claim(3), isEmail, "20240102120000");
    assert r.lists["w"][0].availability == "false";
    assert r.GetReservedParts("w", "bike") == 4;
    done := r.UpdateGiftAvailability(false, claim(2), isEmail, "20240102130000");
    assert done == Busted && r.GetReservedParts("w", "bike") == 4;
    done := r.UpdateGiftAvailability(true, claim(1), isEmail, "20240103120000");
    assert r.lists["w"][0].availability == "true";
    assert r.GetReservedParts("w", "bike") == 5;
    assert |r.reserved["w"]["bike"].reservations| == 3;
  }
}
