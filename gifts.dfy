/** The reservation engine of the gift registry: the item list of one wishlist
    (post meta 'wpgr_wishlist'), its reservation ledger (post meta
    'wpgr_reserved_gifts') and the pure step that a reservation request applies
    to both. The class in registry.dfy performs the same step in place. */
module Gifts {

  datatype Option<T> = None | Some(value: T)

  type GiftId = string

  /** One gift of a wishlist. Availability and the parts flag are the strings
      'true' and 'false' as stored; `details` holds the fields that no operation
      here reads (price, link, description, image). */
  datatype Gift = Gift(
    id: GiftId,
    title: string,
    hasParts: string,
    partsTotal: int,
    availability: string,
    details: map<string, string>)

  /** What PHP reads from a list slot that does not exist: every field is null.
      Null is modelled as "" and 0; `x != null` on an integer compares as
      booleans in PHP, which agrees with `x != 0`. */
  const Unset := Gift("", "", "", 0, "", map[])

  /** One record appended to a ledger entry per reservation request. */
  datatype Reservation = Reservation(
    reserver: string,
    parts: int,
    email: string,
    message: string,
    date: string)

  /** The ledger entry of one gift. `partsReserved` is None when the stored
      entry does not set it (PHP isset fails). */
  datatype Entry = Entry(
    giftId: GiftId,
    giftTitle: string,
    partsReserved: Option<int>,
    partsTotal: int,
    reservations: seq<Reservation>)

  /** The entry PHP starts from when the ledger has none for the gift. */
  const NoEntry := Entry("", "", None, 0, [])

  type Ledger = map<GiftId, Entry>

  /** A sanitised new-schema request: gift_id, gift_availability,
      gift_has_parts, gift_parts_reserved (as its numeric value), gift_reserver,
      gift_reserver_email (already blanked when invalid), gift_reserver_message. */
  datatype Request = Request(
    giftId: GiftId,
    availability: string,
    hasParts: string,
    parts: int,
    reserver: string,
    email: string,
    message: string)

  /** The two stored attributes of one wishlist. */
  datatype Store = Store(items: seq<Gift>, ledger: Ledger)

  /** array_search over array_column(items, 'gift_id'): the first position
      whose id matches, or None where PHP returns false. */
  function FindGift(items: seq<Gift>, id: GiftId): (r: Option<nat>)
    ensures r.Some? ==> r.value < |items| && items[r.value].id == id
    ensures r.Some? ==> forall j :: 0 <= j < r.value ==> items[j].id != id
    ensures r.None? ==> forall j :: 0 <= j < |items| ==> items[j].id != id
  {
    if |items| == 0 then None
    else if items[0].id == id then Some(0)
    else match FindGift(items[1..], id)
      case None => None
      case Some(k) => Some(k + 1)
  }

  /** The key the PHP code indexes the list with: the position of the first
      match, or 0 when the search result `false` is cast to an array key. */
  function Slot(items: seq<Gift>, id: GiftId): (k: nat)
    ensures k <= |items| && (k == |items| ==> |items| == 0)
    ensures FindGift(items, id).Some? ==> k == FindGift(items, id).value
    ensures FindGift(items, id).None? ==> k == 0
  {
    match FindGift(items, id)
    case Some(k) => k
    case None => 0
  }

  /** Reading a slot: a missing slot reads as all-null. */
  function ReadSlot(items: seq<Gift>, k: nat): Gift
  {
    if k < |items| then items[k] else Unset
  }

  /** `$wishlist[$k]['gift_availability'] = $v`: overwrites that one field, or
      appends a slot holding only the availability when k is one past the end. */
  function WriteAvailability(items: seq<Gift>, k: nat, v: string): (r: seq<Gift>)
    requires k <= |items|
    ensures |r| == if k < |items| then |items| else |items| + 1
    ensures r[k] == ReadSlot(items, k).(availability := v)
    ensures forall j :: 0 <= j < |items| && j != k ==> r[j] == items[j]
  {
    if k < |items| then items[k := items[k].(availability := v)]
    else items + [Unset.(availability := v)]
  }

  /** get_reserved_parts on one ledger: the entry's running total when set,
      otherwise 0. */
  function ReservedParts(ledger: Ledger, id: GiftId): int
  {
    if id in ledger && ledger[id].partsReserved.Some? then ledger[id].partsReserved.value else 0
  }

  function EntryOf(ledger: Ledger, id: GiftId): Entry
  {
    if id in ledger then ledger[id] else NoEntry
  }

  /** The availability written back: recomputed for divisible gifts (no
      clamping when the claims overshoot the total), otherwise the caller's. */
  function NewAvailability(prior: int, req: Request, total: int): string
  {
    if req.hasParts == "true" then
      (if prior + req.parts != total then "true" else "false")
    else req.availability
  }

  function RecordOf(req: Request, date: string): Reservation
  {
    Reservation(req.reserver, req.parts, req.email, req.message, date)
  }

  /** The new-schema branch of update_gift_availability on one wishlist's
      stored state. */
  function Reserve(s: Store, req: Request, date: string): Store
  {
    var k := Slot(s.items, req.giftId);
    var prior := ReservedParts(s.ledger, req.giftId);
    var avail := NewAvailability(prior, req, ReadSlot(s.items, k).partsTotal);
    var items := WriteAvailability(s.items, k, avail);
    var entry := Entry(req.giftId, items[k].title, Some(prior + req.parts), items[k].partsTotal,
                       EntryOf(s.ledger, req.giftId).reservations + [RecordOf(req, date)]);
    Store(items, s.ledger[req.giftId := entry])
  }

  /** The linear scan that array_search performs, as a loop. */
  method SearchGiftId(items: seq<Gift>, id: GiftId) returns (r: Option<nat>)
    ensures r == FindGift(items, id)
  {
    var i := 0;
    while i < |items|
      invariant 0 <= i <= |items|
      invariant forall j :: 0 <= j < i ==> items[j].id != id
    {
      if items[i].id == id {
        return Some(i);
      }
      i := i + 1;
    }
    return None;
  }

  // ---------------------------------------------------------------------------
  // One request

  /** Only the located gift's availability changes in the item list. */
  lemma OnlyAvailabilityChanges(s: Store, req: Request, date: string)
    requires FindGift(s.items, req.giftId).Some?
    ensures var k := FindGift(s.items, req.giftId).value;
            var t := Reserve(s, req, date);
            && |t.items| == |s.items|
            && t.items[k] == s.items[k].(availability := t.items[k].availability)
            && forall j :: 0 <= j < |s.items| && j != k ==> t.items[j] == s.items[j]
  {
  }

  /** A divisible gift becomes unavailable exactly when the claims so far
      reach its total, and available again on overshoot. */
  lemma DivisibleAvailability(s: Store, req: Request, date: string)
    requires FindGift(s.items, req.giftId).Some?
    requires req.hasParts == "true"
    ensures var k := FindGift(s.items, req.giftId).value;
            var t := Reserve(s, req, date);
            && (t.items[k].availability == "false" <==>
                ReservedParts(s.ledger, req.giftId) + req.parts == s.items[k].partsTotal)
            && (t.items[k].availability == "true" <==>
                ReservedParts(s.ledger, req.giftId) + req.parts != s.items[k].partsTotal)
  {
  }

  /** An indivisible gift takes the caller's availability as given. */
  lemma IndivisibleAvailability(s: Store, req: Request, date: string)
    requires FindGift(s.items, req.giftId).Some?
    requires req.hasParts != "true"
    ensures Reserve(s, req, date).items[FindGift(s.items, req.giftId).value].availability == req.availability
  {
  }

  /** The ledger entry of the requested gift is rewritten from the current
      item, its running total grows by the claimed parts, one record is
      appended, and every other entry is untouched. */
  lemma LedgerUpdate(s: Store, req: Request, date: string)
    requires FindGift(s.items, req.giftId).Some?
    ensures var k := FindGift(s.items, req.giftId).value;
            var t := Reserve(s, req, date);
            var e := t.ledger[req.giftId];
            && t.ledger.Keys == s.ledger.Keys + {req.giftId}
            && e.giftId == req.giftId
            && e.giftTitle == s.items[k].title
            && e.partsTotal == s.items[k].partsTotal
            && ReservedParts(t.ledger, req.giftId) == ReservedParts(s.ledger, req.giftId) + req.parts
            && e.reservations == EntryOf(s.ledger, req.giftId).reservations + [RecordOf(req, date)]
            && forall g :: g in s.ledger && g != req.giftId ==> t.ledger[g] == s.ledger[g]
  {
  }

  /** The not-found path as written: the search result `false` becomes slot 0,
      so the first gift of a non-empty list takes the new availability and the
      unknown id's ledger entry copies that gift's title and total. */
  lemma NotFoundHitsFirstGift(s: Store, req: Request, date: string)
    requires FindGift(s.items, req.giftId).None?
    requires |s.items| > 0
    ensures var t := Reserve(s, req, date);
            && |t.items| == |s.items|
            && t.items[0] == s.items[0].(availability := NewAvailability(
                 ReservedParts(s.ledger, req.giftId), req, s.items[0].partsTotal))
            && t.items[1..] == s.items[1..]
            && t.ledger[req.giftId].giftTitle == s.items[0].title
            && t.ledger[req.giftId].partsTotal == s.items[0].partsTotal
  {
  }

  /** On an empty list the write creates a slot holding only the availability. */
  lemma NotFoundOnEmptyList(s: Store, req: Request, date: string)
    requires s.items == []
    ensures var t := Reserve(s, req, date);
            && t.items == [Unset.(availability := NewAvailability(ReservedParts(s.ledger, req.giftId), req, 0))]
            && t.ledger[req.giftId].giftTitle == ""
  {
  }

  // ---------------------------------------------------------------------------
  // Sequences of requests

  datatype Call = Call(req: Request, date: string)

  /** The state after the calls, applied first to last. */
  function ReserveAll(s: Store, calls: seq<Call>): Store
  {
    if |calls| == 0 then s
    else
      var last := calls[|calls| - 1];
      Reserve(ReserveAll(s, calls[..|calls| - 1]), last.req, last.date)
  }

  /** The parts claimed by the calls, in total. */
  function Claimed(calls: seq<Call>): int
  {
    if |calls| == 0 then 0 else Claimed(calls[..|calls| - 1]) + calls[|calls| - 1].req.parts
  }

  /** The records the calls append, in order. */
  function Records(calls: seq<Call>): seq<Reservation>
  {
    if |calls| == 0 then [] else Records(calls[..|calls| - 1]) + [RecordOf(calls[|calls| - 1].req, calls[|calls| - 1].date)]
  }

  /** Two item lists that agree on everything but availability. */
  ghost predicate SameGifts(a: seq<Gift>, b: seq<Gift>)
  {
    |a| == |b| && forall i :: 0 <= i < |a| ==> b[i] == a[i].(availability := b[i].availability)
  }

  /** The search reads ids only, so it cannot tell such lists apart. */
  lemma FindGiftIgnoresAvailability(a: seq<Gift>, b: seq<Gift>, id: GiftId)
    requires SameGifts(a, b)
    ensures FindGift(a, id) == FindGift(b, id)
  {
  }

  /** Repeated requests on one found gift: the gift list keeps everything but
      availability, the running total is the prior total plus every claim, the
      reservation records are appended in call order (so earlier records are
      never changed), and the other entries are untouched. */
  lemma {:induction false} ManyReservations(s: Store, calls: seq<Call>, id: GiftId)
    requires FindGift(s.items, id).Some?
    requires forall i :: 0 <= i < |calls| ==> calls[i].req.giftId == id
    ensures var t := ReserveAll(s, calls);
            && SameGifts(s.items, t.items)
            && FindGift(t.items, id) == FindGift(s.items, id)
            && ReservedParts(t.ledger, id) == ReservedParts(s.ledger, id) + Claimed(calls)
            && EntryOf(t.ledger, id).reservations == EntryOf(s.ledger, id).reservations + Records(calls)
            && forall g :: g in s.ledger && g != id ==> g in t.ledger && t.ledger[g] == s.ledger[g]
  {
    if |calls| > 0 {
      var init := calls[..|calls| - 1];
      var last := calls[|calls| - 1];
      ManyReservations(s, init, id);
      var m := ReserveAll(s, init);
      OnlyAvailabilityChanges(m, last.req, last.date);
      LedgerUpdate(m, last.req, last.date);
      var t := Reserve(m, last.req, last.date);
      FindGiftIgnoresAvailability(m.items, t.items, id);
      FindGiftIgnoresAvailability(s.items, t.items, id);
      assert EntryOf(t.ledger, id).reservations
          == EntryOf(s.ledger, id).reservations + Records(init) + [RecordOf(last.req, last.date)];
    }
  }

  /** After N requests on a gift with no entry yet, the entry holds exactly N
      records and its running total is the sum of the claims. */
  lemma FreshGiftReservations(s: Store, calls: seq<Call>, id: GiftId)
    requires FindGift(s.items, id).Some?
    requires id !in s.ledger
    requires forall i :: 0 <= i < |calls| ==> calls[i].req.giftId == id
    ensures |EntryOf(ReserveAll(s, calls).ledger, id).reservations| == |calls|
    ensures ReservedParts(ReserveAll(s, calls).ledger, id) == Claimed(calls)
  {
    ManyReservations(s, calls, id);
    RecordsLength(calls);
  }

  lemma {:induction false} RecordsLength(calls: seq<Call>)
    ensures |Records(calls)| == |calls|
  {
    if |calls| > 0 {
      RecordsLength(calls[..|calls| - 1]);
    }
  }

  /** For a divisible gift, after one or more requests the availability is
      'false' exactly when all the claims bring the total to the gift's parts
      total, and 'true' before that and after any overshoot. */
  lemma DivisibleAfterCalls(s: Store, calls: seq<Call>, id: GiftId)
    requires FindGift(s.items, id).Some?
    requires |calls| > 0
    requires forall i :: 0 <= i < |calls| ==> calls[i].req.giftId == id && calls[i].req.hasParts == "true"
    ensures var k := FindGift(s.items, id).value;
            && |ReserveAll(s, calls).items| == |s.items|
            && ReserveAll(s, calls).items[k].availability ==
              if ReservedParts(s.ledger, id) + Claimed(calls) == s.items[k].partsTotal then "false" else "true"
  {
    var init := calls[..|calls| - 1];
    var last := calls[|calls| - 1];
    ManyReservations(s, init, id);
    DivisibleAvailability(ReserveAll(s, init), last.req, last.date);
  }

  /** A gift of 4 parts claimed 1, 3 and 1 parts in turn: available, then
      fully reserved, then available again after the overshoot. */
  lemma BikeScenario()
    ensures var bike := Gift("bike", "Bike", "true", 4, "true", map[]);
            var claim := (n: int) => Request("bike", "true", "true", n, "Ann", "", "");
            var s0 := Store([bike], map[]);
            var s1 := Reserve(s0, claim(1), "20240101120000");
            var s2 := Reserve(s1, claim(3), "20240102120000");
            var s3 := Reserve(s2, claim(1), "20240103120000");
            && s1.items[0].availability == "true" && ReservedParts(s1.ledger, "bike") == 1
            && s2.items[0].availability == "false" && ReservedParts(s2.ledger, "bike") == 4
            && s3.items[0].availability == "true" && ReservedParts(s3.ledger, "bike") == 5
            && |s3.ledger["bike"].reservations| == 3
  {
  }
}
