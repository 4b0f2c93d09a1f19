/** Entry IDs: a tree ID in sixteen hexadecimal digits before the leaf hash (pkg/sharding/sharding.go). */
module EntryIDs {
  import opened Basics
  import opened Numerals
  import Hex

  const TREE_ID_LEN := 16
  const UUID_LEN := 64
  const ENTRY_ID_LEN := 80
  const ZERO_TREE_ID := "0 is not a valid TreeID"
  const PLAIN_UUID := "cannot get treeID from plain UUID"

  datatype EntryID = EntryID(treeID: string, uuid: string) {
    function ReturnEntryIDString(): string { treeID + uuid }
  }

  function ValidateUUID(u: string): Result<()>
    decreases |u|
  {
    if |u| == ENTRY_ID_LEN then ValidateUUID(u[|u| - UUID_LEN..])
    else if |u| == UUID_LEN then (if Hex.Decode(u).Some? then Ok(()) else Err("not a valid hex string"))
    else Err("invalid ID len")
  }

  function ValidateTreeID(t: string): Result<()>
    decreases |t|
  {
    if |t| == ENTRY_ID_LEN then ValidateTreeID(t[..TREE_ID_LEN])
    else if |t| == TREE_ID_LEN then
      var i := ParseInt(t, 16);
      if i.None? then Err("could not convert treeID") else if i.value == 0 then Err(ZERO_TREE_ID) else Ok(())
    else Err("TreeID len")
  }

  function ValidateEntryID(id: string): Result<()> {
    if ValidateUUID(id).Err? then ValidateUUID(id) else ValidateTreeID(id)
  }

  function Zeros(n: nat): (z: string)
    ensures |z| == n && forall i :: 0 <= i < n ==> z[i] == '0'
  {
    seq(n, _ => '0')
  }

  function PadToTreeIDLen(t: string): Result<string> {
    if |t| == TREE_ID_LEN then Ok(t)
    else if |t| > TREE_ID_LEN then Err("too long")
    else Ok(Zeros(TREE_ID_LEN - |t|) + t)
  }

  function CreateEntryIDFromParts(treeid: string, uuid: string): Result<EntryID> {
    if |treeid| > TREE_ID_LEN then Err("invalid treeid len")
    else if |uuid| != UUID_LEN then Err("invalid uuid len")
    else
      var padded := PadToTreeIDLen(treeid);
      if padded.Err? then Err(padded.error)
      else
        var valid := ValidateEntryID(padded.value + uuid);
        if valid.Err? then Err(valid.error) else Ok(EntryID(padded.value, uuid))
  }

  /** The UUID of a UUID or entry ID; a zero tree ID is forgiven here, and only here. */
  function GetUUIDFromIDString(id: string): Result<string> {
    if |id| == UUID_LEN then
      (if ValidateUUID(id).Err? then Err(ValidateUUID(id).error) else Ok(id))
    else if |id| == ENTRY_ID_LEN then
      var valid := ValidateEntryID(id);
      if valid.Err? && valid.error != ZERO_TREE_ID then Err(valid.error) else Ok(id[|id| - UUID_LEN..])
    else Err("invalid ID len")
  }

  function GetTreeIDFromIDString(id: string): Result<string> {
    if |id| == UUID_LEN then Err(PLAIN_UUID)
    else if |id| == ENTRY_ID_LEN || |id| == TREE_ID_LEN then
      (if ValidateEntryID(id).Err? then Err(ValidateEntryID(id).error) else Ok(id[..TREE_ID_LEN]))
    else Err("invalid ID len")
  }

  function TreeID(entryID: string): Result<int> {
    var tid := GetTreeIDFromIDString(entryID);
    if tid.Err? then Err(tid.error)
    else
      var i := ParseInt(tid.value, 16);
      if i.None? then Err("could not convert treeID") else Ok(i.value)
  }

  // ----- Round trip -----

  /** `fmt.Sprintf("%x", tid)`. */
  function HexTreeID(tid: int): string { FormatInt(tid, 16) }

  lemma SixteenDigits()
    ensures Pow16(16) == TWO_64
  {
    assert Pow16(4) == 65536;
    assert Pow16(8) == 65536 * 65536;
    assert Pow16(12) == 65536 * 65536 * 65536;
  }

  lemma PositiveTreeIDParses(tid: int)
    requires 0 <= tid < TWO_63
    ensures |HexTreeID(tid)| <= TREE_ID_LEN
    ensures ParseInt(PadToTreeIDLen(HexTreeID(tid)).value, 16) == Some(tid)
  {
    hide Format, Value, Pow16;
    var s := HexTreeID(tid);
    SixteenDigits();
    HexLength(tid, 16);
    FormatRoundTrip(tid, 16);
    var zeros := Zeros(TREE_ID_LEN - |s|);
    LeadingZeros(zeros, s, 16);
    var padded := zeros + s;
    if |s| == TREE_ID_LEN {
      assert padded == s;
    }
    assert IsDigit(padded[0], 16);
    DigitIsNoSign(padded[0], 16);
  }

  /** A negative tree ID keeps its sign in front only when it fills all sixteen places. */
  lemma NegativeTreeIDParses(tid: int)
    requires -TWO_63 <= tid < 0 && |HexTreeID(tid)| <= TREE_ID_LEN
    ensures var i := ParseInt(PadToTreeIDLen(HexTreeID(tid)).value, 16);
            if |HexTreeID(tid)| == TREE_ID_LEN then i == Some(tid) else i == None
  {
    hide Format, Value;
    var s := HexTreeID(tid);
    FormatRoundTrip(-tid, 16);
    assert s[1..] == Format(-tid, 16);
    if |s| < TREE_ID_LEN {
      var padded := Zeros(TREE_ID_LEN - |s|) + s;
      assert padded[TREE_ID_LEN - |s|] == '-' && !IsDigit('-', 16);
      assert padded[0] == '0';
    }
  }

  lemma ValidateJoined(padded: string, uuid: string)
    requires |padded| == TREE_ID_LEN && |uuid| == UUID_LEN
    ensures var id := padded + uuid;
            && |id| == ENTRY_ID_LEN
            && id[..TREE_ID_LEN] == padded && id[|id| - UUID_LEN..] == uuid
            && (ValidateUUID(id).Ok? <==> Hex.IsHex(uuid))
            && (ValidateTreeID(id).Ok? <==> ParseInt(padded, 16).Some? && ParseInt(padded, 16) != Some(0))
  {
    hide ParseInt, Hex.DecodePrefix;
    var id := padded + uuid;
    assert id[|id| - UUID_LEN..] == uuid && id[..TREE_ID_LEN] == padded;
  }

  /** The tree IDs that can be written into an entry ID. */
  predicate Writable(tid: int) { 0 < tid || (tid < 0 && |HexTreeID(tid)| == TREE_ID_LEN) }

  lemma PaddedTreeIDParses(tid: int)
    requires IsInt64(tid) && |HexTreeID(tid)| <= TREE_ID_LEN
    ensures var i := ParseInt(PadToTreeIDLen(HexTreeID(tid)).value, 16);
            && (Writable(tid) <==> i.Some? && i != Some(0))
            && (Writable(tid) ==> i == Some(tid))
  {
    hide ParseInt, FormatInt;
    if 0 <= tid {
      PositiveTreeIDParses(tid);
    } else {
      NegativeTreeIDParses(tid);
    }
  }

  /**
    Formatting, padding and joining succeed exactly for a writable tree ID and a 64-digit
    hexadecimal UUID, and then both parts come back from the 80-character string.
   */
  lemma EntryIDRoundTrip(tid: int, uuid: string)
    requires IsInt64(tid)
    ensures var e := CreateEntryIDFromParts(HexTreeID(tid), uuid);
            && (e.Ok? <==> Writable(tid) && |uuid| == UUID_LEN && Hex.IsHex(uuid))
            && (e.Ok? ==>
                  var id := e.value.ReturnEntryIDString();
                  && |id| == ENTRY_ID_LEN && e.value.uuid == uuid
                  && TreeID(id) == Ok(tid)
                  && GetTreeIDFromIDString(id) == PadToTreeIDLen(HexTreeID(tid))
                  && GetUUIDFromIDString(id) == Ok(uuid))
  {
    hide ParseInt, FormatInt, Hex.IsHex, ValidateUUID, ValidateTreeID;
    if 0 <= tid {
      PositiveTreeIDParses(tid);
    }
    var s := HexTreeID(tid);
    if |s| <= TREE_ID_LEN && |uuid| == UUID_LEN {
      PaddedTreeIDParses(tid);
      ValidateJoined(PadToTreeIDLen(s).value, uuid);
    }
  }

  /** A numeral with its leading zeros, written again in as many places, is the same digits in lower case. */
  lemma {:induction false} PaddedAgain(t: string)
    requires t != "" && AllDigits(t, 16)
    ensures var s := Format(Value(t, 16), 16); |s| <= |t| && Zeros(|t| - |s|) + s == Lower(t)
  {
    var n := |t| - 1;
    var (rest, d) := (t[..n], DigitValue(t[n]));
    assert IsDigit(t[n], 16);
    DigitInLower(t[n]);
    assert Lower(t) == Lower(rest) + [LowerChar(t[n])];
    if rest == "" {
      assert Value(rest, 16) == 0;
    } else {
      PaddedAgain(rest);
      if Value(rest, 16) == 0 {
        assert Zeros(|t| - 1) == Zeros(|rest| - 1) + "0";
      }
    }
  }

  /** Distinct entries never share an entry ID. */
  lemma EntryIDInjective(tid: int, uuid: string, tid': int, uuid': string)
    requires IsInt64(tid) && IsInt64(tid')
    requires CreateEntryIDFromParts(HexTreeID(tid), uuid).Ok? && CreateEntryIDFromParts(HexTreeID(tid'), uuid').Ok?
    requires CreateEntryIDFromParts(HexTreeID(tid), uuid).value.ReturnEntryIDString()
             == CreateEntryIDFromParts(HexTreeID(tid'), uuid').value.ReturnEntryIDString()
    ensures tid == tid' && uuid == uuid'
  {
    hide *;
    EntryIDRoundTrip(tid, uuid);
    EntryIDRoundTrip(tid', uuid');
  }

  /** A tree ID of zero is forgiven when the UUID is read, and only then. */
  lemma ZeroTreeIDIsForgiven(uuid: string)
    requires |uuid| == UUID_LEN && Hex.IsHex(uuid)
    ensures var id := Zeros(TREE_ID_LEN) + uuid;
            && GetUUIDFromIDString(id) == Ok(uuid)
            && GetTreeIDFromIDString(id) == Err(ZERO_TREE_ID) && TreeID(id) == Err(ZERO_TREE_ID)
            && CreateEntryIDFromParts("0", uuid) == Err(ZERO_TREE_ID)
  {
    var zeros := Zeros(TREE_ID_LEN);
    assert AllDigits("", 16);
    LeadingZeros(zeros, "", 16);
    assert zeros + "" == zeros;
    assert ParseInt(zeros, 16) == Some(0);
    hide ParseInt, Hex.IsHex, Value, AllDigits;
    assert Zeros(TREE_ID_LEN - 1) + "0" == zeros;
    ValidateJoined(zeros, uuid);
    assert ValidateTreeID(zeros + uuid) == ValidateTreeID(zeros);
  }

  /** An ID of any other length is refused by all readers. */
  lemma OtherLengthsAreRefused(id: string)
    requires |id| != UUID_LEN && |id| != ENTRY_ID_LEN
    ensures GetUUIDFromIDString(id).Err? && GetTreeIDFromIDString(id).Err? && TreeID(id).Err?
  {
    hide ParseInt, Hex.IsHex;
  }

  /** Reading a UUID gives sixty-four hexadecimal digits, whatever the tree ID before them. */
  lemma UUIDIsHex(id: string)
    requires GetUUIDFromIDString(id).Ok?
    ensures |GetUUIDFromIDString(id).value| == UUID_LEN && Hex.IsHex(GetUUIDFromIDString(id).value)
  {
    hide ParseInt, Hex.DecodePrefix;
    assert "not a valid hex string"[0] != ZERO_TREE_ID[0];
    if |id| == ENTRY_ID_LEN {
      var uuid := id[|id| - UUID_LEN..];
      assert ValidateUUID(id) == ValidateUUID(uuid);
      assert ValidateUUID(uuid).Ok? <==> Hex.IsHex(uuid);
    }
  }
}
