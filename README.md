# Hotel booking system — a Dafny model of its booking logic

BookInn is a small desktop application for a ten-room hotel. At start-up it
creates rooms 1 to 10. Even-numbered rooms are "Deluxe" and odd-numbered ones
"Standard". All of them start available. The clerk types a room number and a
guest name, then presses one of three buttons:

- Book marks a free room as booked to the trimmed guest name.
- Cancel frees a booked room and clears its guest name.
- Save writes one line per booked room, each stamped with the save time.

After each change, the on-screen room list is rebuilt with one entry per room.

The model has three modules:

- `Text` (text.dfy) covers the two pieces of Java string handling the logic
  relies on: `String.trim`, which strips characters at or below U+0020, and
  the decimal rendering of an `int` inside string concatenation.
- `Booking` (booking.dfy) is the registry as values. It holds the state of a
  room, the initial registry, and booking and cancelling as functions that
  return an `Outcome`:
  - `Ok`;
  - `InvalidInput` (the room number did not parse);
  - `MissingGuestName`;
  - `RoomNotFound`;
  - `AlreadyBooked`;
  - `NotBooked`.

  It also defines the room-list entries and the export lines, and proves the
  properties listed below.
- `Hotel` (hotel.dfy) is the application as the source writes it:
  - a `Room` class whose booked flag and guest name change in place;
  - a `HotelBookingSystem` class that holds the list of rooms and scans it on
    every request.

  Each method is proved against the `Booking` definitions. For example,
  `(outcome, Snapshot()) == Book(old(Snapshot()), roomField, nameField)`.

The source keeps each room's number and type in ordinary fields, but never
reassigns them after the constructor. The model declares them as `const`.

The room list and the export are built by loops over the room list. The
model's methods do the same and return the strings they produce. Each
method's `ensures` ties that result to the value-level definition.

## Model

| member | source | states |
|---|---|---|
| Text.Trim | HotelBookingSystemGUI.java:115 | the trimmed name is the slice of the input from its first to its last non-blank character; everything cut away is blank; it is empty exactly when the input is all blank |
| Text.NatToString | HotelBookingSystemGUI.java:169 | the decimal rendering of a non-negative number is non-empty and all digits; it starts with '0' only when the number is 0, which is written "0" |
| Text.NatToStringUnique | HotelBookingSystemGUI.java:169 | any non-empty digit string with no leading zero (other than "0" itself) that denotes n is exactly the rendering of n, so the rendering is Java's canonical decimal form |
| Text.IntToString | HotelBookingSystemGUI.java:108 | the rendering of an `int` is non-empty; its sign and digits are stated by `IntToStringRoundTrip` |
| Text.NatToStringRoundTrip | HotelBookingSystemGUI.java:169 | the digits a room number is written with read back as that number |
| Text.IntToStringRoundTrip | HotelBookingSystemGUI.java:108 | an `int` is rendered as a minus sign exactly when it is negative, followed by non-empty digits whose value is its magnitude, with no leading zero unless the magnitude is 0, written "0" |
| Booking.RoomTypeOf | HotelBookingSystemGUI.java:31 | no contract of its own: even numbers give "Deluxe" and odd numbers "Standard"; see `InitialRegistry` |
| Booking.NewRoom | HotelBookingSystemGUI.java:200-206 | no contract of its own: a created room is available with no guest; see `FirstRooms` and `Room.constructor` |
| Booking.FirstRooms | HotelBookingSystemGUI.java:30-31 | after k iterations of the start-up loop, there are k rooms, room i+1 at index i, each typed by parity, available and without a guest |
| Booking.InitialRegistry | HotelBookingSystemGUI.java:29-32 | the initial registry has ten rooms numbered 1..10 in order; even numbers are Deluxe and odd ones Standard; none is booked and none has a guest; the registry is well formed |
| Booking.FindRoom | HotelBookingSystemGUI.java:122-123 | the scan returns the first room with the requested number, and finds none exactly when no room has that number |
| Booking.FindRoomWellFormed | HotelBookingSystemGUI.java:29-32 | in a well-formed registry, room n is found at index n-1 when 1 <= n <= 10, and no other number is found |
| Booking.Book | HotelBookingSystemGUI.java:112-138 | no contract of its own: the booking decision and its new registry; see `BookOutcome`, `BookFrame` and `BookPreservesWellFormed` |
| Booking.BookOutcome | HotelBookingSystemGUI.java:112-138 | each booking outcome holds if and only if its condition holds, checked in the source's order: unparsable number, then blank name, then unknown room, then room already booked; otherwise success |
| Booking.BookFrame | HotelBookingSystemGUI.java:122-133 | booking never changes the length, order, numbers or types; a failed booking changes nothing; a successful one books only the matched room, to the non-empty trimmed name |
| Booking.BookPreservesWellFormed | HotelBookingSystemGUI.java:115-125 | booking keeps the registry well formed, so a room stays booked exactly when it has a guest name |
| Booking.AlreadyBookedKeepsGuest | HotelBookingSystemGUI.java:124-129 | booking a room that is already booked reports it and keeps the earlier guest |
| Booking.BookTwiceKeepsFirstGuest | HotelBookingSystemGUI.java:124-129 | room 3 booked for " Alice " is booked to "Alice"; a second request for it by "Bob" is refused with the registry unchanged, and the guest is still "Alice" |
| Booking.UnknownRoomNotFound | HotelBookingSystemGUI.java:134 | a number outside 1..10 is reported as not found by booking (with a non-blank name) and by cancelling, and changes nothing |
| Booking.Cancel | HotelBookingSystemGUI.java:140-160 | no contract of its own: the cancel decision and its new registry; see `CancelOutcome`, `CancelFrame` and `CancelPreservesWellFormed` |
| Booking.CancelOutcome | HotelBookingSystemGUI.java:140-160 | each cancel outcome holds if and only if its condition holds: unparsable number, then unknown room, then room not booked; otherwise success |
| Booking.CancelFrame | HotelBookingSystemGUI.java:144-155 | cancelling never changes the length, order, numbers or types; a failed cancel changes nothing; a successful one frees only the matched room and clears its guest |
| Booking.CancelPreservesWellFormed | HotelBookingSystemGUI.java:146-147 | cancelling keeps the registry well formed |
| Booking.BookThenCancel | HotelBookingSystemGUI.java:208-216 | a successful booking followed by cancelling the same room succeeds and restores the registry exactly, leaving that room as it was created |
| Booking.Status | HotelBookingSystemGUI.java:107 | no contract of its own: "Booked by " followed by the guest name for a booked room, otherwise "Available" |
| Booking.DisplayEntry | HotelBookingSystemGUI.java:108 | no contract of its own: the entry for one room; see `DisplayLinesAt` |
| Booking.DisplayLines | HotelBookingSystemGUI.java:104-109 | no contract of its own: the whole room list; see `DisplayLinesAt` |
| Booking.DisplayLinesAt | HotelBookingSystemGUI.java:104-109 | the room list has one entry per room, in registry order; each entry gives the room's number, type, and either "Booked by" the guest or "Available" |
| Booking.BookedIndices | HotelBookingSystemGUI.java:167-168 | each index it lists is in range and names a booked room |
| Booking.BookedIndicesComplete | HotelBookingSystemGUI.java:167-168 | the booked indices are strictly increasing and include every booked room |
| Booking.ExportLine | HotelBookingSystemGUI.java:169-170 | no contract of its own: the save line for one booked room; see `ExportLinesAt` |
| Booking.ExportLines | HotelBookingSystemGUI.java:167-173 | no contract of its own: the lines of the save file; see `ExportLinesAt` |
| Booking.ExportLinesAt | HotelBookingSystemGUI.java:164-172 | the export has exactly one line per booked room, in registry order, each stamped with the same time |
| Booking.NothingBookedExportsNothing | HotelBookingSystemGUI.java:167-168 | with no room booked, the export is empty |
| Hotel.Room.State | HotelBookingSystemGUI.java:198-201 | no contract of its own: the room's four fields as a value |
| Hotel.Room.constructor | HotelBookingSystemGUI.java:200-206 | a new room has the given number and type, is available and has no guest |
| Hotel.Room.BookRoom | HotelBookingSystemGUI.java:208-211 | the room becomes booked to the given name; number and type are unchanged |
| Hotel.Room.CancelBooking | HotelBookingSystemGUI.java:213-216 | the room becomes available with an empty guest name; number and type are unchanged |
| Hotel.HotelBookingSystem.constructor | HotelBookingSystemGUI.java:17-27 | the application starts with the initial registry, its invariant holds, and every room object is newly created, so callers may book and cancel through it |
| Hotel.HotelBookingSystem.InitializeRooms | HotelBookingSystemGUI.java:29-32 | the loop leaves ten distinct, newly created room objects whose states are the initial registry |
| Hotel.HotelBookingSystem.RoomListEntries | HotelBookingSystemGUI.java:104-109 | the entries the list is refilled with are the room list of the current registry |
| Hotel.HotelBookingSystem.FindIndex | HotelBookingSystemGUI.java:122-123 | the loop stops at the first room with the number, or at the end of the list exactly when there is none |
| Hotel.HotelBookingSystem.BookRoom | HotelBookingSystemGUI.java:112-138 | the outcome and the new registry are those of `Booking.Book` on the old registry; the room list is the same list of objects; the invariant is kept |
| Hotel.HotelBookingSystem.CancelBooking | HotelBookingSystemGUI.java:140-160 | the outcome and the new registry are those of `Booking.Cancel` on the old registry; the room list is the same list of objects; the invariant is kept |
| Hotel.HotelBookingSystem.SaveBookings | HotelBookingSystemGUI.java:162-173 | the lines written are the export of the current registry at the given time |
| Hotel.BookTwiceScenario | HotelBookingSystemGUI.java:124-129 | on a freshly started application, booking room 3 for " Alice " succeeds; booking it again for "Bob" reports it already booked; the room's guest is "Alice" |

## Left out

- The Swing user interface is not modelled: the window, panels, buttons, colours, the gradient background and the cell renderer that colours booked rooms. Status messages are reduced to the `Outcome` value they report.
- The `DefaultListModel` the room list is copied into is not modelled. `RoomListEntries` returns the entries that would fill it after each change.
- Hotel.HotelBookingSystem.SaveBookings: this does not model the file. The method returns the lines. The `FileWriter`, the overwrite of `bookings.txt`, the newline after each line, and the IOException branch (lines 163 and 175-176) are left out, so a save cannot fail in the model.
- The wall clock is not modelled. `LocalDateTime.now()` formatted as `dd-MM-yyyy HH:mm:ss` becomes the `time` parameter of the save.
- `Integer.parseInt(roomField.getText().trim())` is not modelled. Parsing, the trimming of the room field and the 32-bit range check become an `Option<int>` input, where `None` means a NumberFormatException was thrown.
- Java's 32-bit `int` width is not modelled, because the room numbers the application creates are 1..10. A parsed number outside that range is simply not found.
- The Swing event-dispatch thread and `SwingUtilities.invokeLater` are not modelled. Every request runs to completion, one at a time.
- `initializeRooms` calls `updateRoomList` at its end (line 33), and so do booking and cancelling once a room is found (lines 130 and 152). In the model that refresh is `RoomListEntries`, called separately.
