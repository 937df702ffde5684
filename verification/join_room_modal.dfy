/**
 * The room-identifier parsing of the join dialog (`extractRoomId`) and the decisions
 * `handleJoinRoom` takes around it: reject bad input before any request, then act on
 * the outcome of the room lookup.
 */
module JoinRoomModal {
  import opened Protocol
  import opened Text

  const RoomPath: string := "/room/"

  /** The regular expression `\/room\/([A-Z0-9]{8})` matches at position `i` of `t`. */
  predicate RoomLinkAt(t: string, i: int)
  {
    OccursAt(t, RoomPath, i) && i + 14 <= |t| && IsRoomId(t[i + 6..i + 14])
  }

  /** The leftmost match at or after `from`, as a regular-expression search finds it. */
  function FirstRoomLink(t: string, from: nat): (i: int)
    ensures i == -1 ==> forall j :: from <= j ==> !RoomLinkAt(t, j)
    ensures i != -1 ==> from <= i && RoomLinkAt(t, i) && forall j :: from <= j < i ==> !RoomLinkAt(t, j)
    decreases |t| - from
  {
    if from + 14 > |t| then -1
    else if t[from..from + 6] == RoomPath && IsRoomId(t[from + 6..from + 14]) then from
    else FirstRoomLink(t, from + 1)
  }

  /** `extractRoomId`: the room id in a pasted link or bare id, or the empty string. */
  function ExtractRoomId(input: string): (r: string)
    ensures r == "" || IsRoomId(r)
  {
    ExtractFromTrimmed(Trim(input))
  }

  /** What `extractRoomId` does once the input is trimmed. */
  function ExtractFromTrimmed(trimmed: string): (r: string)
    ensures r == "" || IsRoomId(r)
  {
    if Includes(trimmed, RoomPath) then
      var i := FirstRoomLink(trimmed, 0);
      if i < 0 then "" else trimmed[i + 6..i + 14]
    else if IsRoomId(trimmed) then trimmed
    else ""
  }

  /**
   * A trimmed input that contains "/room/" yields the eight characters after the leftmost
   * "/room/" that is followed by eight `[A-Z0-9]` characters (whatever follows is ignored),
   * and the empty string when no occurrence is.
   */
  lemma ExtractFromLink(input: string)
    requires Includes(Trim(input), RoomPath)
    ensures var t := Trim(input);
      && (ExtractRoomId(input) != "" <==> exists i :: RoomLinkAt(t, i))
      && (ExtractRoomId(input) != "" ==>
            exists i :: RoomLinkAt(t, i) && ExtractRoomId(input) == t[i + 6..i + 14]
                        && forall j :: 0 <= j < i ==> !RoomLinkAt(t, j))
  {
    TrimmedLink(Trim(input));
  }

  lemma TrimmedLink(t: string)
    requires Includes(t, RoomPath)
    ensures ExtractFromTrimmed(t) != "" <==> exists i :: RoomLinkAt(t, i)
    ensures ExtractFromTrimmed(t) != "" ==>
              exists i :: RoomLinkAt(t, i) && ExtractFromTrimmed(t) == t[i + 6..i + 14]
                          && forall j :: 0 <= j < i ==> !RoomLinkAt(t, j)
  {
    var i := FirstRoomLink(t, 0);
    if i >= 0 {
      assert RoomLinkAt(t, i) && ExtractFromTrimmed(t) == t[i + 6..i + 14];
    }
  }

  /** Without "/room/", the trimmed input is returned exactly when it is a bare room id; otherwise nothing is. */
  lemma ExtractBareId(input: string)
    requires !Includes(Trim(input), RoomPath)
    ensures ExtractRoomId(input) != "" <==> IsRoomId(Trim(input))
    ensures IsRoomId(Trim(input)) ==> ExtractRoomId(input) == Trim(input)
  {
  }

  /** Leading and trailing whitespace do not change the result. */
  lemma ExtractIgnoresPadding(w1: string, s: string, w2: string)
    requires AllSpace(w1) && AllSpace(w2)
    ensures ExtractRoomId(w1 + s + w2) == ExtractRoomId(s)
  {
    TrimIgnoresPadding(w1, s, w2);
  }

  /** A room id passes through unchanged: `extractRoomId` accepts what the server generates. */
  lemma ExtractKeepsRoomId(id: string)
    requires IsRoomId(id)
    ensures ExtractRoomId(id) == id
  {
    assert !IsJsSpace(id[0]) && !IsJsSpace(id[7]);
    TrimKeepsTrimmed(id);
    forall i | 0 <= i && i + 6 <= |id| ensures !OccursAt(id, RoomPath, i) {
      assert IsRoomIdChar(id[i]);
      assert id[i..i + 6][0] == id[i];
    }
  }

  /** Idempotence: a non-empty result extracts to itself. */
  lemma ExtractIdempotent(input: string)
    ensures ExtractRoomId(ExtractRoomId(input)) == ExtractRoomId(input)
  {
    var r := ExtractRoomId(input);
    if r != "" {
      ExtractKeepsRoomId(r);
    }
  }

  /** The in-app link `/room/<id>` that a successful join navigates to extracts back to the id. */
  lemma ExtractFromRoomPath(id: string)
    requires IsRoomId(id)
    ensures ExtractRoomId(RoomPath + id) == id
  {
    var t := RoomPath + id;
    assert t[0] == '/' && t[13] == id[7];
    assert !IsJsSpace(t[0]) && !IsJsSpace(t[13]);
    TrimKeepsTrimmed(t);
    assert Trim(t) == t;
    assert t[0..6] == RoomPath && t[6..14] == id;
    assert Includes(t, RoomPath) by { assert OccursAt(t, RoomPath, 0); }
    assert FirstRoomLink(t, 0) == 0;
    assert ExtractRoomId(t) == t[6..14];
  }

  /** The leftmost match is the one the search returns. */
  lemma FirstRoomLinkIs(t: string, i: nat)
    requires RoomLinkAt(t, i) && forall j :: 0 <= j < i ==> !RoomLinkAt(t, j)
    ensures FirstRoomLink(t, 0) == i
  {
  }

  /** In the link example the only match starts at position 12. */
  lemma LinkExampleMatch(t: string)
    requires t == "https://host/room/AB12CD34"
    ensures RoomLinkAt(t, 12) && t[18..26] == "AB12CD34"
    ensures forall j :: 0 <= j < 12 ==> !RoomLinkAt(t, j)
  {
    assert t[12..18] == RoomPath;
    assert t[18..26] == "AB12CD34" by { assert |t[18..26]| == 8; forall k | 0 <= k < 8 ensures t[18..26][k] == "AB12CD34"[k] { } }
    forall j | 0 <= j < 12 ensures !RoomLinkAt(t, j) {
      assert t[j] != '/' || t[j + 1] != 'r';
      assert t[j..j + 6][0] == t[j] && t[j..j + 6][1] == t[j + 1];
    }
  }

  /** The link example of the room-identifier acceptance rule. */
  lemma ExtractLinkExample(t: string)
    requires t == "https://host/room/AB12CD34"
    ensures ExtractRoomId(t) == "AB12CD34"
  {
    assert !IsJsSpace(t[0]) && !IsJsSpace(t[|t| - 1]);
    TrimKeepsTrimmed(t);
    LinkExampleMatch(t);
    assert Includes(t, RoomPath) by { assert OccursAt(t, RoomPath, 12); }
    FirstRoomLinkIs(t, 12);
  }

  /** The rejected example of the room-identifier acceptance rule. */
  lemma ExtractRejectExample(u: string)
    requires u == "not-a-room-link"
    ensures ExtractRoomId(u) == ""
  {
    assert !IsJsSpace(u[0]) && !IsJsSpace(u[|u| - 1]);
    TrimKeepsTrimmed(u);
    forall i | 0 <= i && i + 6 <= |u| ensures !OccursAt(u, RoomPath, i) {
      assert u[i] != '/';
      assert u[i..i + 6][0] == u[i];
    }
  }

  const InvalidInputError: string := "Please enter a valid room ID (8 characters) or room URL"

  /** The first step of `handleJoinRoom`: an error before any request, or the id to look up. */
  datatype JoinStart = InvalidInput(error: string) | LookUp(roomId: string)

  function StartJoin(input: string): (s: JoinStart)
    ensures s.InvalidInput? <==> ExtractRoomId(input) == ""
    ensures s.InvalidInput? ==> s.error == InvalidInputError
    ensures s.LookUp? ==> IsRoomId(s.roomId) && s.roomId == ExtractRoomId(input)
  {
    var roomId := ExtractRoomId(input);
    if roomId == "" then InvalidInput(InvalidInputError) else LookUp(roomId)
  }

  /** What `fetch('/api/rooms/<id>')` came back with. */
  datatype LookupResponse = HttpStatus(code: nat) | NetworkFailure

  datatype JoinOutcome = Navigate(path: string) | ShowError(error: string)

  /** The second step of `handleJoinRoom`: navigate on success, otherwise one error line. */
  function FinishJoin(roomId: string, response: LookupResponse): (o: JoinOutcome)
    ensures o.Navigate? <==> response.HttpStatus? && 200 <= response.code <= 299
    ensures o.Navigate? ==> o.path == RoomPath + roomId
    ensures response == HttpStatus(404) ==> o == ShowError("Room not found or may have been deleted")
    ensures response.NetworkFailure? ==> o == ShowError("Network error. Please check your connection and try again.")
    ensures response.HttpStatus? && !(200 <= response.code <= 299) && response.code != 404 ==>
              o == ShowError("Failed to join room. Please try again.")
  {
    match response
    case NetworkFailure => ShowError("Network error. Please check your connection and try again.")
    case HttpStatus(code) =>
      if 200 <= code <= 299 then Navigate(RoomPath + roomId)
      else if code == 404 then ShowError("Room not found or may have been deleted")
      else ShowError("Failed to join room. Please try again.")
  }
}
