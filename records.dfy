/**
 * The records the reconciliation engine works on: a hotel (Newbook) stay record,
 * a restaurant (ResOS) reservation with its custom-field values, a custom-field
 * definition from the reservation platform's schema, and the operator's settings.
 * Booking ids are already normalised with `String(...)`; a missing text field is "".
 */
module Records {
  import opened Js

  /** One element of a stay record's `inventory_items` array. */
  datatype InventoryItem = InventoryItem(stayDate: string, description: string)

  /** One Newbook stay record (`newbookBookings[]`). */
  datatype HotelBooking = HotelBooking(
    bookingId: string,          // String(booking_id)
    status: string,             // booking_status
    groupId: JsValue,           // bookings_group_id
    arrival: string,            // booking_arrival, "YYYY-MM-DD hh:mm:ss" or ""
    departure: string,          // booking_departure
    adults: JsValue,            // booking_adults
    children: JsValue,          // booking_children
    infants: JsValue,           // booking_infants
    inventory: Option<seq<InventoryItem>>)  // inventory_items, None when not an array

  /** One value in a reservation's `customFields` array; the field is named by `_id` or `id`. */
  datatype FieldEntry = FieldEntry(primaryId: Option<string>, legacyId: Option<string>, value: JsValue) {
    /** `cf._id === fieldId || cf.id === fieldId` */
    predicate Targets(fieldId: string) {
      primaryId == Some(fieldId) || legacyId == Some(fieldId)
    }
  }

  /** One ResOS reservation (`resosBookings[]`). */
  datatype RestaurantBooking = RestaurantBooking(
    id: string,                 // _id
    status: string,
    people: Option<nat>,
    customFields: Option<seq<FieldEntry>>)

  /** One choice of a multiple-choice custom field. */
  datatype Choice = Choice(id: string, name: string)

  /** One custom-field definition of the reservation platform's schema. */
  datatype FieldDef = FieldDef(id: string, name: string, choices: Option<seq<Choice>>)

  /** The operator's settings that the engine reads; "" stands for an unset value. */
  datatype Settings = Settings(
    bookingRefFieldId: string,
    hotelGuestFieldId: string,
    dbbFieldId: string,
    packageInventoryName: string)

  /** The reservation statuses that count for matching, orphans and statistics. */
  predicate IsActiveStatus(status: string) {
    status in {"approved", "arrived", "seated", "left"}
  }

  /** A field-role id that is set and non-empty (JavaScript truthiness of `STATE.*FieldId`). */
  predicate Enabled(fieldId: Option<string>) {
    fieldId.Some? && fieldId.value != ""
  }
}
