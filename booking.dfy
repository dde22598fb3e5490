/**
 * The booking registry as values: the state of each room, the ten rooms the
 * application starts with, and what booking, cancelling, the room list and
 * the export do to / make of a registry. The class-based model in module
 * Hotel is proved against these definitions.
 */
module Booking {
  import opened Text

  datatype Option<T> = None | Some(value: T)

  /** One room: its number, its type label, the booked flag and the guest name. */
  datatype RoomState = RoomState(number: int, roomType: string, booked: bool, guest: string)

  /** What a book or cancel request ends in; each failure leaves the registry alone. */
  datatype Outcome = Ok | InvalidInput | MissingGuestName | RoomNotFound | AlreadyBooked | NotBooked

  /** The application always creates exactly this many rooms. */
  const RoomCount: nat := 10

  /** Even room numbers are Deluxe, odd ones Standard. */
  function RoomTypeOf(number: nat): string {
    if number % 2 == 0 then "Deluxe" else "Standard"
  }

  /** The room invariant: a room is booked exactly when it has a guest name. */
  predicate Consistent(r: RoomState) {
    r.booked <==> r.guest != ""
  }

  /**
   * The registry invariant: ten rooms, room `i + 1` at index `i` with the
   * type its parity decides, every room consistent.
   */
  predicate WellFormed(s: seq<RoomState>) {
    |s| == RoomCount &&
    forall i :: 0 <= i < |s| ==> s[i].number == i + 1 && s[i].roomType == RoomTypeOf(i + 1) && Consistent(s[i])
  }

  /** A room as the application creates it: available, no guest. */
  function NewRoom(number: nat): RoomState {
    RoomState(number, RoomTypeOf(number), false, "")
  }

  /** The first `k` rooms the initialisation loop appends. */
  function FirstRooms(k: nat): (s: seq<RoomState>)
    ensures |s| == k
    ensures forall i :: 0 <= i < k ==> s[i] == NewRoom(i + 1)
  {
    if k == 0 then [] else FirstRooms(k - 1) + [NewRoom(k)]
  }

  /** The registry right after start-up. */
  function InitialRegistry(): (s: seq<RoomState>)
    ensures WellFormed(s)
    ensures |s| == 10
    ensures forall i :: 0 <= i < |s| ==>
      s[i].number == i + 1 &&
      (s[i].roomType == "Deluxe" <==> (i + 1) % 2 == 0) &&
      (s[i].roomType == "Standard" <==> (i + 1) % 2 == 1) &&
      !s[i].booked && s[i].guest == ""
  {
    FirstRooms(RoomCount)
  }

  /** The linear scan: the index of the first room numbered `number`, if any. */
  function FindRoom(s: seq<RoomState>, number: int): (k: Option<nat>)
    ensures k.Some? ==> k.value < |s| && s[k.value].number == number
    ensures k.Some? ==> forall j :: 0 <= j < k.value ==> s[j].number != number
    ensures k.None? <==> forall j :: 0 <= j < |s| ==> s[j].number != number
  {
    if s == [] then None
    else if s[0].number == number then Some(0)
    else match FindRoom(s[1..], number)
      case None => None
      case Some(k) => Some(k + 1)
  }

  /**
   * Booking. `roomField` is the room-number field as `Integer.parseInt` read
   * it (None when it did not parse); `nameField` is the guest-name field
   * before trimming. Checks, in this order: the number parsed, the trimmed
   * name is not empty, a room has that number, that room is free.
   */
  function Book(s: seq<RoomState>, roomField: Option<int>, nameField: string): (Outcome, seq<RoomState>) {
    match roomField
    case None => (InvalidInput, s)
    case Some(number) =>
      var guestName := Trim(nameField);
      if guestName == "" then (MissingGuestName, s)
      else match FindRoom(s, number)
        case None => (RoomNotFound, s)
        case Some(k) =>
          if s[k].booked then (AlreadyBooked, s)
          else (Ok, s[k := s[k].(booked := true, guest := guestName)])
  }

  /** Cancelling: the number parsed, a room has that number, that room is booked. */
  function Cancel(s: seq<RoomState>, roomField: Option<int>): (Outcome, seq<RoomState>) {
    match roomField
    case None => (InvalidInput, s)
    case Some(number) =>
      match FindRoom(s, number)
      case None => (RoomNotFound, s)
      case Some(k) =>
        if s[k].booked then (Ok, s[k := s[k].(booked := false, guest := "")])
        else (NotBooked, s)
  }

  /** The text after the dash in a room-list entry. */
  function Status(r: RoomState): string {
    if r.booked then "Booked by " + r.guest else "Available"
  }

  /** One entry of the room list shown on screen. */
  function DisplayEntry(r: RoomState): string {
    "Room " + IntToString(r.number) + " [" + r.roomType + "] - " + Status(r)
  }

  /** The room list: one entry per room, in registry order. */
  function DisplayLines(s: seq<RoomState>): seq<string> {
    if s == [] then [] else DisplayLines(s[..|s| - 1]) + [DisplayEntry(s[|s| - 1])]
  }

  /** One line of the export file for a booked room; `time` is the save time. */
  function ExportLine(r: RoomState, time: string): string {
    "Room no: " + IntToString(r.number) + ", Room type: " + r.roomType +
    ", Guest name: " + r.guest + ", Date & Time: " + time
  }

  /** The export file: a line for each booked room, in registry order. */
  function ExportLines(s: seq<RoomState>, time: string): seq<string> {
    if s == [] then []
    else
      var tail := if s[|s| - 1].booked then [ExportLine(s[|s| - 1], time)] else [];
      ExportLines(s[..|s| - 1], time) + tail
  }

  /** The indices of the booked rooms, in registry order; each names a booked room. */
  function BookedIndices(s: seq<RoomState>): (ix: seq<nat>)
    ensures forall k :: 0 <= k < |ix| ==> ix[k] < |s| && s[ix[k]].booked
  {
    if s == [] then []
    else
      var p := s[..|s| - 1];
      BookedIndices(p) + (if s[|s| - 1].booked then [|s| - 1] else [])
  }

  /** The booked indices are strictly increasing, and every booked room occurs. */
  lemma {:induction false} BookedIndicesComplete(s: seq<RoomState>)
    ensures forall k, l :: 0 <= k < l < |BookedIndices(s)| ==> BookedIndices(s)[k] < BookedIndices(s)[l]
    ensures forall i :: 0 <= i < |s| && s[i].booked ==> i in BookedIndices(s)
  {
    if s != [] {
      var p := s[..|s| - 1];
      BookedIndicesComplete(p);
      var ix, ixp := BookedIndices(s), BookedIndices(p);
      assert ix == ixp + if s[|s| - 1].booked then [|s| - 1] else [];
      forall i | 0 <= i < |s| && s[i].booked
        ensures i in ix
      {
        if i < |p| {
          assert p[i] == s[i];
        }
      }
    }
  }

  // ---------------------------------------------------------------------
  // Lookup in a well-formed registry

  /** In a well-formed registry room `n` sits at index `n - 1`, and only 1..10 exist. */
  lemma FindRoomWellFormed(s: seq<RoomState>, number: int)
    requires WellFormed(s)
    ensures FindRoom(s, number) == if 1 <= number <= RoomCount then Some(number - 1) else None
  {
    if 1 <= number <= RoomCount {
      assert s[number - 1].number == number;
    }
  }

  // ---------------------------------------------------------------------
  // Booking

  /** The decision booking makes, stated in terms of its inputs, both ways. */
  lemma BookOutcome(s: seq<RoomState>, roomField: Option<int>, nameField: string)
    ensures Book(s, roomField, nameField).0 == InvalidInput <==> roomField.None?
    ensures Book(s, roomField, nameField).0 == MissingGuestName <==>
      roomField.Some? && AllBlank(nameField)
    ensures Book(s, roomField, nameField).0 == RoomNotFound <==>
      roomField.Some? && !AllBlank(nameField) &&
      forall i :: 0 <= i < |s| ==> s[i].number != roomField.value
    ensures Book(s, roomField, nameField).0 == AlreadyBooked <==>
      roomField.Some? && !AllBlank(nameField) &&
      FindRoom(s, roomField.value).Some? && s[FindRoom(s, roomField.value).value].booked
    ensures Book(s, roomField, nameField).0 == Ok <==>
      roomField.Some? && !AllBlank(nameField) &&
      FindRoom(s, roomField.value).Some? && !s[FindRoom(s, roomField.value).value].booked
  {
    if roomField.Some? {
      var number := roomField.value;
      if Trim(nameField) != "" {
        match FindRoom(s, number)
        case None =>
        case Some(k) => BookFound(s, roomField, nameField, k);
      }
    }
  }

  /**
   * What booking changes: nothing on failure; on success only the matched
   * room, which becomes booked to the trimmed name. Length, order, numbers
   * and types never change.
   */
  lemma BookFrame(s: seq<RoomState>, roomField: Option<int>, nameField: string)
    ensures |Book(s, roomField, nameField).1| == |s|
    ensures forall i :: 0 <= i < |s| ==>
      Book(s, roomField, nameField).1[i].number == s[i].number &&
      Book(s, roomField, nameField).1[i].roomType == s[i].roomType
    ensures Book(s, roomField, nameField).0 != Ok ==> Book(s, roomField, nameField).1 == s
    ensures Book(s, roomField, nameField).0 == Ok ==>
      var k := FindRoom(s, roomField.value).value;
      var r := Book(s, roomField, nameField).1;
      r[k].booked && r[k].guest == Trim(nameField) && r[k].guest != "" &&
      forall i :: 0 <= i < |s| && i != k ==> r[i] == s[i]
  {
  }

  /**
   * Proof step, not a specification: unfolds `Book` for a request whose number
   * parsed, whose name is not blank, and whose room the scan found at `k`.
   */
  lemma BookFound(s: seq<RoomState>, roomField: Option<int>, nameField: string, k: nat)
    requires roomField.Some? && Trim(nameField) != ""
    requires FindRoom(s, roomField.value) == Some(k)
    ensures Book(s, roomField, nameField) ==
      if s[k].booked then (AlreadyBooked, s)
      else (Ok, s[k := s[k].(booked := true, guest := Trim(nameField))])
  {
  }

  /** Booking keeps the registry well formed, whatever the outcome. */
  lemma BookPreservesWellFormed(s: seq<RoomState>, roomField: Option<int>, nameField: string)
    requires WellFormed(s)
    ensures WellFormed(Book(s, roomField, nameField).1)
  {
    BookFrame(s, roomField, nameField);
  }

  /** Booking a room that is already taken leaves its guest as it was. */
  lemma AlreadyBookedKeepsGuest(s: seq<RoomState>, number: int, nameField: string)
    requires WellFormed(s)
    requires 1 <= number <= RoomCount && s[number - 1].booked
    requires !AllBlank(nameField)
    ensures Book(s, Some(number), nameField) == (AlreadyBooked, s)
    ensures Book(s, Some(number), nameField).1[number - 1].guest == s[number - 1].guest
  {
    FindRoomWellFormed(s, number);
  }

  /** A room number outside 1..10 is never found, by booking or by cancelling. */
  lemma UnknownRoomNotFound(s: seq<RoomState>, number: int, nameField: string)
    requires WellFormed(s)
    requires number < 1 || number > RoomCount
    requires !AllBlank(nameField)
    ensures Book(s, Some(number), nameField) == (RoomNotFound, s)
    ensures Cancel(s, Some(number)) == (RoomNotFound, s)
  {
    FindRoomWellFormed(s, number);
  }

  /**
   * Room 3 booked for " Alice " and then requested for "Bob": the first
   * request books it to "Alice", the second is refused and keeps her.
   */
  lemma BookTwiceKeepsFirstGuest(s: seq<RoomState>)
    requires WellFormed(s) && !s[2].booked
    ensures Book(s, Some(3), " Alice ").0 == Ok
    ensures |Book(s, Some(3), " Alice ").1| == RoomCount
    ensures var s1 := Book(s, Some(3), " Alice ").1;
      Book(s1, Some(3), "Bob") == (AlreadyBooked, s1) && s1[2].guest == "Alice"
  {
    assert LeadingBlanks(" Alice ") == 1;
    assert Trim(" Alice ") == "Alice";
    FindRoomWellFormed(s, 3);
    var s1 := Book(s, Some(3), " Alice ").1;
    assert s1 == s[2 := s[2].(booked := true, guest := "Alice")];
    BookPreservesWellFormed(s, Some(3), " Alice ");
    assert Trim("Bob") != "";
    AlreadyBookedKeepsGuest(s1, 3, "Bob");
  }

  // ---------------------------------------------------------------------
  // Cancelling

  /** The decision cancelling makes, stated in terms of its inputs, both ways. */
  lemma CancelOutcome(s: seq<RoomState>, roomField: Option<int>)
    ensures Cancel(s, roomField).0 == InvalidInput <==> roomField.None?
    ensures Cancel(s, roomField).0 == RoomNotFound <==>
      roomField.Some? && forall i :: 0 <= i < |s| ==> s[i].number != roomField.value
    ensures Cancel(s, roomField).0 == NotBooked <==>
      roomField.Some? && FindRoom(s, roomField.value).Some? &&
      !s[FindRoom(s, roomField.value).value].booked
    ensures Cancel(s, roomField).0 == Ok <==>
      roomField.Some? && FindRoom(s, roomField.value).Some? &&
      s[FindRoom(s, roomField.value).value].booked
  {
  }

  /**
   * What cancelling changes: nothing on failure; on success only the matched
   * room, which becomes available with no guest.
   */
  lemma CancelFrame(s: seq<RoomState>, roomField: Option<int>)
    ensures |Cancel(s, roomField).1| == |s|
    ensures forall i :: 0 <= i < |s| ==>
      Cancel(s, roomField).1[i].number == s[i].number &&
      Cancel(s, roomField).1[i].roomType == s[i].roomType
    ensures Cancel(s, roomField).0 != Ok ==> Cancel(s, roomField).1 == s
    ensures Cancel(s, roomField).0 == Ok ==>
      var k := FindRoom(s, roomField.value).value;
      var r := Cancel(s, roomField).1;
      !r[k].booked && r[k].guest == "" &&
      forall i :: 0 <= i < |s| && i != k ==> r[i] == s[i]
  {
  }

  /**
   * Proof step, not a specification: unfolds `Cancel` for a request whose
   * number parsed and whose room the scan found at `k`.
   */
  lemma CancelFound(s: seq<RoomState>, roomField: Option<int>, k: nat)
    requires roomField.Some? && FindRoom(s, roomField.value) == Some(k)
    ensures Cancel(s, roomField) ==
      if s[k].booked then (Ok, s[k := s[k].(booked := false, guest := "")])
      else (NotBooked, s)
  {
  }

  /** Cancelling keeps the registry well formed, whatever the outcome. */
  lemma CancelPreservesWellFormed(s: seq<RoomState>, roomField: Option<int>)
    requires WellFormed(s)
    ensures WellFormed(Cancel(s, roomField).1)
  {
    CancelFrame(s, roomField);
  }

  /** A successful booking undone by a successful cancel restores the registry. */
  lemma BookThenCancel(s: seq<RoomState>, number: int, nameField: string)
    requires WellFormed(s)
    requires Book(s, Some(number), nameField).0 == Ok
    ensures Cancel(Book(s, Some(number), nameField).1, Some(number)) == (Ok, s)
    ensures Cancel(Book(s, Some(number), nameField).1, Some(number)).1[number - 1] == NewRoom(number)
  {
    FindRoomWellFormed(s, number);
    var booked := Book(s, Some(number), nameField).1;
    BookPreservesWellFormed(s, Some(number), nameField);
    FindRoomWellFormed(booked, number);
    var k := number - 1;
    var restored := Cancel(booked, Some(number)).1;
    assert restored[k] == s[k];
    assert restored == s;
  }

  // ---------------------------------------------------------------------
  // The room list and the export

  /** The room list has one entry per room, entry `i` describing room `i`. */
  lemma {:induction false} DisplayLinesAt(s: seq<RoomState>)
    ensures |DisplayLines(s)| == |s|
    ensures forall i :: 0 <= i < |s| ==> DisplayLines(s)[i] == DisplayEntry(s[i])
  {
    if s != [] {
      var p := s[..|s| - 1];
      var last := |s| - 1;
      DisplayLinesAt(p);
      assert DisplayLines(s) == DisplayLines(p) + [DisplayEntry(s[last])];
      forall i | 0 <= i < |s|
        ensures DisplayLines(s)[i] == DisplayEntry(s[i])
      {
        if i < |p| {
          assert s[i] == p[i];
          assert DisplayLines(s)[i] == DisplayLines(p)[i] == DisplayEntry(p[i]);
        } else {
          assert i == last;
        }
      }
    }
  }


  /** Listing one more room appends its entry. */
  lemma DisplayLinesSnoc(s: seq<RoomState>, i: nat)
    requires i < |s|
    ensures DisplayLines(s[..i + 1]) == DisplayLines(s[..i]) + [DisplayEntry(s[i])]
  {
    assert s[..i + 1][..i] == s[..i];
  }

  /** Exporting one more room appends its line if it is booked. */
  lemma ExportLinesSnoc(s: seq<RoomState>, i: nat, time: string)
    requires i < |s|
    ensures ExportLines(s[..i + 1], time) ==
      ExportLines(s[..i], time) + if s[i].booked then [ExportLine(s[i], time)] else []
  {
    assert s[..i + 1][..i] == s[..i];
  }

  /**
   * The export is exactly one line per booked room, in registry order: line
   * `k` is the line for the `k`-th booked room, all with the same time.
   */
  lemma {:induction false} ExportLinesAt(s: seq<RoomState>, time: string)
    ensures |ExportLines(s, time)| == |BookedIndices(s)|
    ensures forall k :: 0 <= k < |BookedIndices(s)| ==>
      ExportLines(s, time)[k] == ExportLine(s[BookedIndices(s)[k]], time)
  {
    if s != [] {
      var p := s[..|s| - 1];
      var last := |s| - 1;
      ExportLinesAt(p, time);
      var ix, ixp := BookedIndices(s), BookedIndices(p);
      var tail := if s[last].booked then [ExportLine(s[last], time)] else [];
      assert ExportLines(s, time) == ExportLines(p, time) + tail;
      assert ix == ixp + if s[last].booked then [last] else [];
      forall k | 0 <= k < |ix|
        ensures ExportLines(s, time)[k] == ExportLine(s[ix[k]], time)
      {
        if k < |ixp| {
          assert ExportLines(s, time)[k] == ExportLines(p, time)[k];
          assert s[ix[k]] == p[ixp[k]];
        } else {
          assert ExportLines(s, time)[k] == ExportLine(s[last], time);
        }
      }
    }
  }

  /** A registry with no booked room exports nothing. */
  lemma NothingBookedExportsNothing(s: seq<RoomState>, time: string)
    requires forall i :: 0 <= i < |s| ==> !s[i].booked
    ensures ExportLines(s, time) == []
  {
    ExportLinesAt(s, time);
  }
}
