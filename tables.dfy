/** The rows the scheduler keeps: users, slots, one booking row per slot,
    rebooking permissions and student-teacher assignments. A `Database`
    object holds the live tables; `Tables` is a snapshot of them, the value
    every operation is specified against. */
module Tables {
  import opened Wrappers

  type UserId = nat
  type SlotId = nat
  type BookingId = nat

  /** A local user. `email` and `facultySubject` use "" where the column is
      NULL; `pblUserId` is the external identity-provider id, which may be
      NULL. */
  datatype User = User(
    email: string,
    name: string,
    role: string,
    pblUserId: Option<string>,
    facultySubject: string,
    availableForBooking: bool)

  /** A bookable interval owned by one faculty member, in minutes. */
  datatype Slot = Slot(faculty: UserId, subject: string, start: int, end: int, isAvailable: bool)

  datatype Status = Confirmed | Cancelled | Completed | Absent

  /** The booking row of a slot. The slot itself is the key it is stored
      under, which is how the one-to-one relation is kept. */
  datatype Booking = Booking(
    id: BookingId,
    student: UserId,
    status: Status,
    cancelledAt: Option<int>,
    reason: string,
    absentAt: Option<int>,
    updatedAt: int)

  /** A faculty member's permission for a student to rebook a subject. */
  datatype Permission = Permission(teacher: string, updatedAt: int)

  /** A snapshot of every table. Permissions and assignments are keyed by
      (student, subject), so each pair has at most one row, as the unique
      constraint on rebooking permissions demands. */
  datatype Tables = Tables(
    users: map<UserId, User>,
    slots: map<SlotId, Slot>,
    bookings: map<SlotId, Booking>,
    permissions: map<(UserId, string), Permission>,
    assignments: map<(UserId, string), string>)

  /** Referential integrity: bookings hang off existing slots and students,
      slots off existing faculty, intervals are non-empty and booking ids
      are unique. */
  predicate Valid(t: Tables) {
    && t.bookings.Keys <= t.slots.Keys
    && (forall s :: s in t.slots ==> t.slots[s].faculty in t.users && t.slots[s].start < t.slots[s].end)
    && (forall s :: s in t.bookings ==> t.bookings[s].student in t.users)
    && (forall s1, s2 :: s1 in t.bookings && s2 in t.bookings && s1 != s2 ==> t.bookings[s1].id != t.bookings[s2].id)
  }

  /** A slot holding a confirmed booking is not offered for booking. */
  predicate Consistent(t: Tables) {
    forall s :: s in t.bookings && s in t.slots && t.bookings[s].status == Confirmed ==> !t.slots[s].isAvailable
  }

  /** Whether `id` is the id of some booking row. */
  predicate IdInUse(t: Tables, id: BookingId) {
    exists s :: s in t.bookings && t.bookings[s].id == id
  }

  /** The live database. Operations that write rows update these fields. */
  class Database {
    var users: map<UserId, User>
    var slots: map<SlotId, Slot>
    var bookings: map<SlotId, Booking>
    var permissions: map<(UserId, string), Permission>
    var assignments: map<(UserId, string), string>

    constructor (t: Tables)
      ensures State() == t
    {
      users := t.users;
      slots := t.slots;
      bookings := t.bookings;
      permissions := t.permissions;
      assignments := t.assignments;
    }

    function State(): Tables
      reads this
    {
      Tables(users, slots, bookings, permissions, assignments)
    }
  }
}
