/**
 * The room registry of the signalling server (server/wsshare/room.go): rooms
 * are keyed by an application prefix and a room name, each holding a host
 * connection and at most one client connection. A connection is identified
 * by a number; the random generator is a nondeterministic choice.
 */
module Rooms {
  import opened Wrappers

  const MaxPrefixLen := 30
  const RoomLen := 10
  /** How many random names hostRoom draws before giving up. */
  const Tries := 10

  const Lower: string := "abcdefghijklmnopqrstuvwxyz"
  const Upper: string := "ABCDEFGHIJKLMNOPQRSTUVWXYZ"
  const Digits: string := "0123456789"
  /** validChars: the runes allowed in a prefix and drawn for a room name. */
  const ValidChars: string := Lower + Upper + Digits

  /** An ASCII letter or digit: the reference definition of a valid rune. */
  predicate IsAlnum(c: char)
  {
    ('a' <= c <= 'z') || ('A' <= c <= 'Z') || ('0' <= c <= '9')
  }

  lemma LowerIsRange(c: char)
    ensures c in Lower <==> 'a' <= c <= 'z'
  {
    if 'a' <= c <= 'z' {
      assert Lower[c as int - 'a' as int] == c;
    }
  }

  lemma UpperIsRange(c: char)
    ensures c in Upper <==> 'A' <= c <= 'Z'
  {
    if 'A' <= c <= 'Z' {
      assert Upper[c as int - 'A' as int] == c;
    }
  }

  lemma DigitsIsRange(c: char)
    ensures c in Digits <==> '0' <= c <= '9'
  {
    if '0' <= c <= '9' {
      assert Digits[c as int - '0' as int] == c;
    }
  }

  /** The character table holds exactly the ASCII letters and digits. */
  lemma ValidCharsAreAlnum(c: char)
    ensures c in ValidChars <==> IsAlnum(c)
  {
    LowerIsRange(c);
    UpperIsRange(c);
    DigitsIsRange(c);
  }

  /** A prefix the server accepts: at most 30 runes, each a letter or digit. */
  ghost predicate ValidPrefix(prefix: string)
  {
    |prefix| <= MaxPrefixLen && forall i :: 0 <= i < |prefix| ==> IsAlnum(prefix[i])
  }

  /** roomKey: the map key of a room under an application prefix. */
  function RoomKey(prefix: string, room: string): (key: string)
    ensures |key| == |prefix| + 1 + |room|
    ensures key[..|prefix|] == prefix && key[|prefix|] == '_' && key[|prefix| + 1..] == room
  {
    prefix + "_" + room
  }

  /**
   * Under valid prefixes (which never contain '_') a key names one prefix and
   * one room: rooms of different applications cannot collide.
   */
  lemma RoomKeyInjective(p1: string, r1: string, p2: string, r2: string)
    requires ValidPrefix(p1) && ValidPrefix(p2)
    requires RoomKey(p1, r1) == RoomKey(p2, r2)
    ensures p1 == p2 && r1 == r2
  {
  }

  /** validRune: scans the table of valid characters for `r`. */
  method ValidRune(r: char) returns (ok: bool)
    ensures ok <==> IsAlnum(r)
  {
    var table := ValidChars;
    ok := false;
    var i := 0;
    while i < |table|
      invariant 0 <= i <= |table|
      invariant forall j :: 0 <= j < i ==> table[j] != r
    {
      if r == table[i] {
        ok := true;
        break;
      }
      i := i + 1;
    }
    ValidCharsAreAlnum(r);
  }

  /** validatePrefix: rejects a prefix that is too long or holds a rune outside the table. */
  method ValidatePrefix(prefix: string) returns (ok: bool)
    ensures ok <==> ValidPrefix(prefix)
  {
    if |prefix| > MaxPrefixLen {
      return false;
    }
    for i := 0 to |prefix|
      invariant forall j :: 0 <= j < i ==> IsAlnum(prefix[j])
    {
      var valid := ValidRune(prefix[i]);
      if !valid {
        return false;
      }
    }
    return true;
  }

  /** randomRoom: RoomLen characters, each drawn from the table. */
  method RandomRoom() returns (room: string)
    ensures |room| == RoomLen
    ensures forall i :: 0 <= i < |room| ==> IsAlnum(room[i])
  {
    room := "";
    for i := 0 to RoomLen
      invariant |room| == i
      invariant forall j :: 0 <= j < i ==> IsAlnum(room[j])
    {
      var pick :| 0 <= pick < |ValidChars|;
      ValidCharsAreAlnum(ValidChars[pick]);
      room := room + [ValidChars[pick]];
    }
  }

  type Conn = nat

  /** roomData: the host of a room and its client, if one has joined. */
  datatype Slot = Slot(host: Conn, client: Option<Conn>)

  type RoomMap = map<string, Slot>

  /** The map after a host takes `key`: a fresh slot with no client. */
  function Hosted(rooms: RoomMap, key: string, conn: Conn): (r: RoomMap)
    ensures r.Keys == rooms.Keys + {key}
    ensures r[key].host == conn && r[key].client.None?
    ensures forall k :: k in rooms && k != key ==> r[k] == rooms[k]
  {
    rooms[key := Slot(conn, None)]
  }

  /**
   * The map after a client joins `key`, or None when the room is missing or
   * already full.
   */
  function Joined(rooms: RoomMap, key: string, conn: Conn): (r: Option<RoomMap>)
    ensures r.Some? <==> key in rooms && rooms[key].client.None?
    ensures r.Some? ==> r.value.Keys == rooms.Keys
    ensures r.Some? ==> r.value[key] == Slot(rooms[key].host, Some(conn))
    ensures r.Some? ==> forall k :: k in rooms && k != key ==> r.value[k] == rooms[k]
  {
    if key in rooms && rooms[key].client.None? then
      Some(rooms[key := rooms[key].(client := Some(conn))])
    else
      None
  }

  /** A freshly hosted room admits exactly one client, and keeps its host. */
  lemma JoinAfterHost(rooms: RoomMap, key: string, host: Conn, c1: Conn, c2: Conn)
    ensures Joined(Hosted(rooms, key, host), key, c1).Some?
    ensures Joined(Hosted(rooms, key, host), key, c1).value[key] == Slot(host, Some(c1))
    ensures Joined(Joined(Hosted(rooms, key, host), key, c1).value, key, c2).None?
  {
  }

  /** The process-wide registry of rooms (`myRooms`). */
  class Registry {
    var rooms: RoomMap

    constructor ()
      ensures rooms == map[]
    {
      rooms := map[];
    }

    /**
     * hostRoom: claims the wanted room, or when none is wanted, the first
     * free one among at most Tries random names (returned in `drawn`). An
     * existing room is never overwritten; "" reports failure.
     */
    method HostRoom(prefix: string, wantedRoom: string, conn: Conn) returns (room: string, ghost drawn: seq<string>)
      modifies this
      ensures room == "" ==> rooms == old(rooms)
      ensures room != "" ==>
                RoomKey(prefix, room) !in old(rooms) && rooms == Hosted(old(rooms), RoomKey(prefix, room), conn)
      ensures wantedRoom != "" ==> (room == "" <==> RoomKey(prefix, wantedRoom) in old(rooms))
      ensures wantedRoom != "" && room != "" ==> room == wantedRoom
      ensures wantedRoom == "" ==> 1 <= |drawn| <= Tries
      ensures wantedRoom == "" ==> forall k :: 0 <= k < |drawn| - 1 ==> RoomKey(prefix, drawn[k]) in old(rooms)
      ensures wantedRoom == "" ==>
                (room == "" <==> |drawn| == Tries && RoomKey(prefix, drawn[Tries - 1]) in old(rooms))
      ensures wantedRoom == "" && room != "" ==>
                room == drawn[|drawn| - 1] && |room| == RoomLen && forall i :: 0 <= i < |room| ==> IsAlnum(room[i])
    {
      drawn := [];
      room := wantedRoom;
      var invalidRoom := true;
      if room != "" {
        invalidRoom := RoomKey(prefix, room) in rooms;
      } else {
        var i := 0;
        while invalidRoom && i < Tries
          invariant rooms == old(rooms)
          invariant 0 <= i <= Tries && |drawn| == i
          invariant i == 0 ==> invalidRoom
          invariant i > 0 ==> room == drawn[i - 1] && (invalidRoom <==> RoomKey(prefix, room) in rooms)
          invariant i > 0 ==> |room| == RoomLen && forall j :: 0 <= j < |room| ==> IsAlnum(room[j])
          invariant forall k :: 0 <= k < i - 1 ==> RoomKey(prefix, drawn[k]) in rooms
          decreases Tries - i
        {
          room := RandomRoom();
          invalidRoom := RoomKey(prefix, room) in rooms;
          drawn := drawn + [room];
          i := i + 1;
        }
      }
      if invalidRoom {
        return "", drawn;
      }
      rooms := rooms[RoomKey(prefix, room) := Slot(conn, None)];
    }

    /** joinRoom: takes the client slot of an existing room that has none; "" reports failure. */
    method JoinRoom(prefix: string, room: string, conn: Conn) returns (r: string)
      modifies this
      ensures Joined(old(rooms), RoomKey(prefix, room), conn).None? ==> r == "" && rooms == old(rooms)
      ensures Joined(old(rooms), RoomKey(prefix, room), conn).Some? ==>
                r == room && rooms == Joined(old(rooms), RoomKey(prefix, room), conn).value
    {
      var key := RoomKey(prefix, room);
      if key !in rooms {
        return "";
      }
      var data := rooms[key];
      if data.client.Some? {
        return "";
      }
      rooms := rooms[key := data.(client := Some(conn))];
      return room;
    }
  }
}
