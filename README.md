# Gift registry reservation update, in Dafny

This project models the public side of the WP Gift Registry plugin where it
computes something: the AJAX action `update_gift_availability` in both of its
schemas, the helper `get_reserved_parts`, and the choice of which wishlists the
`[wishlist]` shortcode shows.

- **New schema** (`gifts.dfy`, module `Gifts`). A wishlist stores two things:
  - an item list (post meta `wpgr_wishlist`);
  - a reservation ledger keyed by gift id (post meta `wpgr_reserved_gifts`).

  `Reserve` is the pure step one request applies to both. It finds the gift by
  id, taking the first match. It then works out the new availability:
  - for a divisible gift (`gift_has_parts == 'true'`) it is
    `'true'` unless prior plus claimed parts equal `gift_parts_total`, with no
    clamping on overshoot;
  - otherwise it is the caller's value.

  It writes that one field back. In the ledger it re-copies the entry's id,
  title and total, adds the claimed parts to the running total and appends one
  reservation record.

  `SearchGiftId` is the `array_search` scan as a loop. The lemmas cover one
  request and also any sequence of requests (`ReserveAll`).
- **Legacy schema** (`legacy.dfy`, module `Legacy`). There is one flat list
  (option `wishlist`, entry `wishlist_group`). A loop sets the availability of
  every gift whose title is identical to the sanitised name. No ledger is
  written.
- **Listing** (`listing.dfy`, module `Listing`). The shortcode's selection has
  three cases:
  - a single id is shown when its stored list is non-empty;
  - `all` lists, in order, exactly the post ids whose list is non-empty;
  - no id falls back to the legacy list.
- **Stored state** (`registry.dfy`, module `GiftRegistry`). Class `Registry`
  holds the two post-meta stores and the legacy option as fields.
  - `UpdateGiftAvailability` is the AJAX action. The nonce check arrives as a
    boolean: when it fails, nothing changes and the response is `Busted`.
  - `ReserveGift` does the new-schema update in place. Its postcondition says
    the new state is what `Reserve` computes.
  - `ListAll` is the loop of the "all" view.
  - `BikeClient` states, through the class, that a four-part gift claimed 1,
    3 and 1 parts has availability `'true'`, `'false'`, `'true'`, and that a
    request with an invalid nonce in between changes nothing.

Values follow the PHP code. Availability and the parts flag are the strings
`'true'` and `'false'`. A list slot that PHP reads but that does not exist
yields nulls. The model writes them as `Unset`, with `""` and `0` in its
fields. For an integer compared with `!=` against null, PHP compares
booleans, and that gives the same result as comparing with 0.

When no gift has the requested id, `array_search` returns `false`. PHP uses
that as array key 0, and the model follows the code:
- on a non-empty list, the first gift takes the new availability, and the
  unknown id's new ledger entry copies that gift's title and total
  (`NotFoundHitsFirstGift`);
- on an empty list, the write creates a slot that holds only the
  availability (`NotFoundOnEmptyList`).

The code does not stop when no gift matches, and the model follows it.

## Model

| member | source | states |
|---|---|---|
| Gifts.FindGift | public/class-wp-gift-registry-public.php:256 | the result is the first position whose `gift_id` matches, or none when no gift has that id |
| Gifts.SearchGiftId | public/class-wp-gift-registry-public.php:256 | the linear scan returns exactly the first-match position of `FindGift` |
| Gifts.Slot | public/class-wp-gift-registry-public.php:256 | a found gift's key is its first-match position; a missing gift (`false`) is cast to key 0; the key is a valid index unless the list is empty |
| Gifts.WriteAvailability | public/class-wp-gift-registry-public.php:262 | only the availability of the written slot changes; writing one past the end of an empty list appends a slot holding only the availability |
| Gifts.OnlyAvailabilityChanges | public/class-wp-gift-registry-public.php:256-263 | when the gift is found, the list keeps its length, every other gift is unchanged, and the located gift differs only in its availability |
| Gifts.DivisibleAvailability | public/class-wp-gift-registry-public.php:258-260 | for a divisible gift, the new availability is 'false' exactly when prior plus claimed parts equal the total, and 'true' otherwise, overshoot included |
| Gifts.IndivisibleAvailability | public/class-wp-gift-registry-public.php:247-262 | when the parts flag is not 'true', the located gift's availability becomes the caller's value |
| Gifts.LedgerUpdate | public/class-wp-gift-registry-public.php:265-281 | the entry's id, title and total are re-copied from the current gift; its running total is the prior total (0 if unset) plus the claim; exactly one record is appended; every other entry is unchanged |
| Gifts.NotFoundHitsFirstGift | public/class-wp-gift-registry-public.php:256-272 | with an unknown id on a non-empty list, the first gift takes the new availability, all later gifts are unchanged, and the new entry copies the first gift's title and parts total |
| Gifts.NotFoundOnEmptyList | public/class-wp-gift-registry-public.php:254-272 | with an empty list, the list becomes one slot holding only the availability, and the entry's title reads as empty |
| Gifts.NewAvailability | public/class-wp-gift-registry-public.php:247-262 | no contract of its own; its properties are stated by DivisibleAvailability, IndivisibleAvailability and DivisibleAfterCalls |
| Gifts.ReservedParts | public/class-wp-gift-registry-public.php:218-228 | no contract of its own (it is also the read at line 267); stated by Registry.GetReservedParts, LedgerUpdate, ManyReservations and FreshGiftReservations |
| Gifts.Reserve | public/class-wp-gift-registry-public.php:242-281 | no contract of its own; its properties are stated by OnlyAvailabilityChanges, DivisibleAvailability, IndivisibleAvailability, LedgerUpdate, NotFoundHitsFirstGift, NotFoundOnEmptyList and ManyReservations, and Registry.ReserveGift is proved to compute it |
| Gifts.ManyReservations | public/class-wp-gift-registry-public.php:265-280 | after any number of requests on a found gift: the gifts differ only in availability; the running total is the prior total plus every claim; the records are the earlier ones followed by one per call in order; other entries are untouched |
| Gifts.FreshGiftReservations | public/class-wp-gift-registry-public.php:265-280 | starting with no entry, N requests leave exactly N records and a running total equal to the sum of the claims |
| Gifts.DivisibleAfterCalls | public/class-wp-gift-registry-public.php:258-272 | after one or more divisible-gift requests, the availability is 'false' exactly when all claims together bring the total to the gift's parts total |
| Gifts.BikeScenario | public/class-wp-gift-registry-public.php:258-272 | for a 4-part gift, claims of 1, 3 and 1 give availability 'true', 'false', 'true' and running totals 1, 4, 5, with 3 records |
| Legacy.SetAvailabilityByTitle | public/class-wp-gift-registry-public.php:286-299 | every gift whose title is identical to the name takes the supplied availability; every other gift and every other field is unchanged |
| Listing.NonEmptyIds | public/class-wp-gift-registry-public.php:168-177 | no contract of its own; its properties are stated by NonEmptyIdsMembers, NonEmptyIdsAppend and NonEmptyIdsBound, and Registry.ListAll is proved to compute it |
| Listing.Render | public/class-wp-gift-registry-public.php:144-192 | no contract of its own; SingleAgreesWithAll states that the single and "all" views agree |
| Listing.NonEmptyIdsMembers | public/class-wp-gift-registry-public.php:165-180 | an id is listed exactly when it is among the post ids and its stored list is non-empty |
| Listing.NonEmptyIdsAppend | public/class-wp-gift-registry-public.php:168-177 | the selection keeps the original order: it distributes over concatenation of the id list |
| Listing.NonEmptyIdsBound | public/class-wp-gift-registry-public.php:168-177 | the selection is never longer than the ids, and equals them when every list is non-empty |
| Listing.SingleAgreesWithAll | public/class-wp-gift-registry-public.php:144-180 | a post id is rendered alone exactly when the "all" view links to it |
| GiftRegistry.ToRequest | public/class-wp-gift-registry-public.php:245-252 | the stored email is the submitted one when it passes the email check, and otherwise empty |
| GiftRegistry.Registry.GetReservedParts | public/class-wp-gift-registry-public.php:218-228 | the entry's `gift_parts_reserved` when the wishlist's ledger has an entry that sets it, otherwise 0 |
| GiftRegistry.Registry.UpdateGiftAvailability | public/class-wp-gift-registry-public.php:235-302 | an invalid nonce changes nothing; version 'new' replaces that wishlist's list and ledger as `Reserve` does and leaves the legacy list alone; any other version rewrites the legacy list by title and leaves both meta stores alone |
| GiftRegistry.Registry.ReserveGift | public/class-wp-gift-registry-public.php:242-281 | the in-place update leaves exactly the state `Reserve` computes from the state it read |
| GiftRegistry.Registry.ListAll | public/class-wp-gift-registry-public.php:159-180 | the loop yields exactly the order-preserving selection of non-empty wishlists |

## Left out

- `enqueue_styles`, `enqueue_scripts`: asset registration and nonce creation are platform calls.
- HTML output, template `require`s and the currency option lookups of the shortcode: rendering only; `Render` keeps its branch structure and selection.
- `filter_wishlist_content`: depends on platform request state (singular page, password, global post).
- `transform_to_affiliate_link` and `wpgr_encode_url`: thin wrappers over PHP's `htmlspecialchars` and `urlencode`, whose behaviour is not part of this model.
- `wp_verify_nonce`, `sanitize_key`, `sanitize_title`, `wp_kses_data`: foreign library calls. The nonce result is a boolean input and the other fields arrive already sanitised. `is_email` is a function parameter, and a failing email becomes `""`.
- `date('YmdHis')`: the timestamp is a parameter.
- `get_post_meta`, `update_post_meta`, `get_option`, `update_option`, `get_posts`: storage is held in the fields of `Registry`, and the post ids are an input.
- The read-modify-write race between concurrent requests: each request is modelled as one sequential read, compute and write.
- Parts count: `gift_parts_reserved` is taken as its integer value. A non-numeric sanitised string (including `""`) is not modelled: under PHP 8 the `+` on line 259 or 271 then raises a TypeError, and at line 271 that happens after line 263 has already saved the item list; under PHP 7 the string is coerced instead.
- Integer overflow: the model uses unbounded integers. The `+` on lines 259 and 271 turns into a float at `PHP_INT_MAX` in PHP, which is not modelled.
- Gifts.FindGift: ids are compared with string equality. `array_search` compares loosely, so two different numeric strings such as "1" and "01" would match in PHP.
- Gifts.FindGift: the stored list is assumed to be 0-based and sequential, with every gift carrying a `gift_id`. `array_search` returns a position in `array_column`'s re-indexed output, which line 262 uses as a key of the list itself; a gift without `gift_id`, or non-sequential keys, would make the two disagree.
- Parts total: `gift_parts_total` is an integer, and a missing total reads as 0. PHP's loose comparison of a numeric string total gives the same result.
- Legacy.SetAvailabilityByTitle: the legacy option is taken to exist and to hold a list. A missing option, or a missing `wishlist_group`, is not modelled.
