/**
 * The booking application with its user interface removed: the rooms are
 * objects whose booked flag and guest name change in place, and the
 * application keeps them in a list it scans for every request. Each method is
 * proved against the value-level definitions of module Booking.
 */
module Hotel {
  import opened Text
  import opened Booking

  /** A hotel room. Its number and type are fixed when it is created. */
  class Room {
    const roomNumber: int
    const roomType: string
    var isBooked: bool
    var guestName: string

    /** A new room is available and has no guest. */
    constructor (roomNumber: int, roomType: string)
      ensures State() == RoomState(roomNumber, roomType, false, "")
    {
      this.roomNumber := roomNumber;
      this.roomType := roomType;
      isBooked := false;
      guestName := "";
    }

    /** The room's current state as a value. */
    function State(): RoomState
      reads this
    {
      RoomState(roomNumber, roomType, isBooked, guestName)
    }

    /** Marks the room booked to `guestName`; performs no checks of its own. */
    method BookRoom(guestName: string)
      modifies this
      ensures State() == old(State()).(booked := true, guest := guestName)
    {
      isBooked := true;
      this.guestName := guestName;
    }

    /** Marks the room available and clears the guest name. */
    method CancelBooking()
      modifies this
      ensures State() == old(State()).(booked := false, guest := "")
    {
      isBooked := false;
      guestName := "";
    }
  }

  /** The states of a list of rooms, element by element. */
  function States(rs: seq<Room>): (s: seq<RoomState>)
    reads rs
    ensures |s| == |rs|
    ensures forall i :: 0 <= i < |rs| ==> s[i] == rs[i].State()
  {
    if rs == [] then [] else States(rs[..|rs| - 1]) + [rs[|rs| - 1].State()]
  }

  /** When only room `k` may differ from `before`, so does the list of states. */
  lemma StatesUpdate(rs: seq<Room>, before: seq<RoomState>, k: nat)
    requires |before| == |rs| && k < |rs|
    requires forall j :: 0 <= j < |rs| && j != k ==> rs[j].State() == before[j]
    ensures States(rs) == before[k := rs[k].State()]
  {
  }

  /** The application: the list of rooms it books and cancels. */
  class HotelBookingSystem {
    var rooms: seq<Room>

    /** The registry as values, in list order. */
    function Snapshot(): seq<RoomState>
      reads this`rooms, rooms
    {
      States(rooms)
    }

    /**
     * The application's invariant: the rooms are distinct objects and the
     * registry is well formed (ten rooms numbered 1..10 and typed by parity,
     * each booked exactly when it has a guest name).
     */
    ghost predicate Valid()
      reads this, rooms
    {
      (forall i, j :: 0 <= i < j < |rooms| ==> rooms[i] != rooms[j]) &&
      WellFormed(Snapshot())
    }

    /** Start-up: creates the ten rooms. */
    constructor ()
      ensures Valid()
      ensures Snapshot() == InitialRegistry()
      ensures forall j :: 0 <= j < |rooms| ==> fresh(rooms[j])
    {
      rooms := [];
      new;
      InitializeRooms();
    }

    /** Appends rooms 1..10, typed by parity. */
    method InitializeRooms()
      requires rooms == []
      modifies this
      ensures Valid()
      ensures Snapshot() == InitialRegistry()
      ensures forall j :: 0 <= j < |rooms| ==> fresh(rooms[j])
    {
      var i := 1;
      while i <= 10
        invariant 1 <= i <= 11
        invariant |rooms| == i - 1
        invariant forall j, k :: 0 <= j < k < |rooms| ==> rooms[j] != rooms[k]
        invariant forall j :: 0 <= j < |rooms| ==> rooms[j].State() == NewRoom(j + 1)
        invariant forall j :: 0 <= j < |rooms| ==> fresh(rooms[j])
      {
        var room := new Room(i, if i % 2 == 0 then "Deluxe" else "Standard");
        rooms := rooms + [room];
        i := i + 1;
      }
      assert Snapshot() == InitialRegistry();
    }

    /**
     * The entries the room list is refilled with after every change: one per
     * room, in order.
     */
    method RoomListEntries() returns (model: seq<string>)
      ensures model == DisplayLines(Snapshot())
    {
      model := [];
      var i := 0;
      while i < |rooms|
        invariant 0 <= i <= |rooms|
        invariant model == DisplayLines(Snapshot()[..i])
      {
        var room := rooms[i];
        DisplayLinesSnoc(Snapshot(), i);
        model := model + [DisplayEntry(room.State())];
        i := i + 1;
      }
      assert Snapshot()[..i] == Snapshot();
    }

    /**
     * The scan both buttons perform: the index of the first room numbered
     * `roomNumber`, or the number of rooms when there is none.
     */
    method FindIndex(roomNumber: int) returns (i: nat)
      ensures i <= |rooms|
      ensures FindRoom(Snapshot(), roomNumber) == if i < |rooms| then Some(i) else None
    {
      i := 0;
      while i < |rooms| && rooms[i].roomNumber != roomNumber
        invariant i <= |rooms|
        invariant forall j :: 0 <= j < i ==> rooms[j].roomNumber != roomNumber
      {
        i := i + 1;
      }
    }

    /**
     * The Book button. `roomField` is the parsed room number (None when it
     * did not parse), `nameField` the guest name as typed.
     */
    method BookRoom(roomField: Option<int>, nameField: string) returns (outcome: Outcome)
      requires Valid()
      modifies rooms
      ensures Valid() && rooms == old(rooms)
      ensures (outcome, Snapshot()) == Book(old(Snapshot()), roomField, nameField)
    {
      if roomField.None? {
        return InvalidInput;
      }
      var roomNumber := roomField.value;
      var guestName := Trim(nameField);
      if guestName == "" {
        return MissingGuestName;
      }
      var i := FindIndex(roomNumber);
      if i == |rooms| {
        return RoomNotFound;
      }
      var room := rooms[i];
      ghost var before := Snapshot();
      assert before == old(Snapshot());
      BookFound(before, roomField, nameField, i);
      if !room.isBooked {
        room.BookRoom(guestName);
        outcome := Ok;
        forall j | 0 <= j < |rooms| && j != i
          ensures rooms[j].State() == before[j]
        {
          assert rooms[j] != room;
        }
        StatesUpdate(rooms, before, i);
      } else {
        outcome := AlreadyBooked;
      }
      assert (outcome, Snapshot()) == Book(before, roomField, nameField);
      BookPreservesWellFormed(before, roomField, nameField);
    }

    /** The Cancel button. `roomField` is the parsed room number. */
    method CancelBooking(roomField: Option<int>) returns (outcome: Outcome)
      requires Valid()
      modifies rooms
      ensures Valid() && rooms == old(rooms)
      ensures (outcome, Snapshot()) == Cancel(old(Snapshot()), roomField)
    {
      if roomField.None? {
        return InvalidInput;
      }
      var roomNumber := roomField.value;
      var i := FindIndex(roomNumber);
      if i == |rooms| {
        return RoomNotFound;
      }
      var room := rooms[i];
      ghost var before := Snapshot();
      assert before == old(Snapshot());
      CancelFound(before, roomField, i);
      if room.isBooked {
        room.CancelBooking();
        outcome := Ok;
        forall j | 0 <= j < |rooms| && j != i
          ensures rooms[j].State() == before[j]
        {
          assert rooms[j] != room;
        }
        StatesUpdate(rooms, before, i);
      } else {
        outcome := NotBooked;
      }
      assert (outcome, Snapshot()) == Cancel(before, roomField);
      CancelPreservesWellFormed(before, roomField);
    }

    /**
     * The Save button without the file: the lines written for the booked
     * rooms, every one stamped with the same `time`.
     */
    method SaveBookings(time: string) returns (lines: seq<string>)
      ensures lines == ExportLines(Snapshot(), time)
    {
      lines := [];
      var i := 0;
      while i < |rooms|
        invariant 0 <= i <= |rooms|
        invariant lines == ExportLines(Snapshot()[..i], time)
      {
        var room := rooms[i];
        ExportLinesSnoc(Snapshot(), i, time);
        if room.isBooked {
          lines := lines + [ExportLine(room.State(), time)];
        }
        i := i + 1;
      }
      assert Snapshot()[..i] == Snapshot();
    }
  }

  /**
   * A clerk books room 3 for " Alice ", then tries to book it again for
   * "Bob": the first request succeeds with the trimmed name, the second is
   * refused and the room keeps its first guest.
   */
  method BookTwiceScenario() returns (first: Outcome, second: Outcome, guest: string)
    ensures first == Ok && second == AlreadyBooked && guest == "Alice"
  {
    var hotel := new HotelBookingSystem();
    BookTwiceKeepsFirstGuest(hotel.Snapshot());
    first := hotel.BookRoom(Some(3), " Alice ");
    second := hotel.BookRoom(Some(3), "Bob");
    assert hotel.rooms[2].State() == hotel.Snapshot()[2];
    guest := hotel.rooms[2].guestName;
  }
}
