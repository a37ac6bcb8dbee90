/** Looking a name up in one FAT directory. */
module FatDirectory {
  import opened Disk
  import opened Text
  import F = Fat16

  const MAX_PATH := 108
  const SLOT_SIZE := 32
  const DELETED: byte := 0xE5
  const SPACE: byte := 0x20
  const DOT: byte := '.' as int

  /** A 32-byte directory slot. */
  type Slot = s: seq<byte> | |s| == SLOT_SIZE witness seq(SLOT_SIZE, _ => 0)

  function NameField(slot: Slot): seq<byte> { slot[..8] }

  function ExtField(slot: Slot): seq<byte> { slot[8..11] }

  // ---- Names ----

  /** Where a space-padded field ends: at its first NUL or space from `i` on. */
  function TrimEnd(field: seq<byte>, i: nat): (e: nat)
    requires i <= |field|
    ensures i <= e <= |field| && (e < |field| ==> field[e] == 0 || field[e] == SPACE)
    ensures forall k :: i <= k < e ==> field[k] != 0 && field[k] != SPACE
    decreases |field| - i
  {
    if i == |field| || field[i] == 0 || field[i] == SPACE then i else TrimEnd(field, i + 1)
  }

  function Trim(field: seq<byte>): (r: seq<byte>) {
    field[..TrimEnd(field, 0)]
  }

  /** NAME.EXT, or NAME alone when the extension is empty. */
  function FullName(slot: Slot): (r: seq<byte>)
    ensures |r| <= 12 && 0 !in r
  {
    var ext := ExtField(slot);
    Trim(NameField(slot)) + if ext[0] != 0 && ext[0] != SPACE then [DOT] + Trim(ext) else []
  }

  // ---- Names in characters ----

  /** The text of a field is its first `n` bytes: they are neither NUL nor space, the next one is. */
  predicate EndsField(field: seq<byte>, n: nat) {
    && n <= |field| && (forall k :: 0 <= k < n ==> field[k] != 0 && field[k] != 0x20)
    && (n < |field| ==> field[n] == 0 || field[n] == 0x20)
  }

  /** A name of `n` and an extension of `m` characters, with a dot between them. */
  function NameText(slot: Slot, n: nat, m: nat): seq<byte>
    requires n <= 8 && m <= 3
  {
    if m == 0 then slot[..n] else slot[..n] + [0x2E] + slot[8..8 + m]
  }

  /** The same letter, large or small. */
  predicate SameLetter(c: byte, d: byte) {
    c == d || (65 <= c <= 90 && d == c + 32) || (97 <= c <= 122 && d == c - 32)
  }

  predicate SameText(s: seq<byte>, t: seq<byte>) {
    |s| == |t| && forall i :: 0 <= i < |s| ==> SameLetter(s[i], t[i])
  }

  /** The slot goes by this name. */
  ghost predicate Named(slot: Slot, name: seq<byte>) {
    exists n: nat, m: nat ::
      n <= 8 && m <= 3 && EndsField(slot[..8], n) && EndsField(slot[8..11], m) && SameText(NameText(slot, n, m), name)
  }

  lemma FieldEnd(field: seq<byte>, n: nat)
    ensures EndsField(field, n) <==> n == |Trim(field)|
  {
    var e := TrimEnd(field, 0);
    assert e < |field| ==> field[e] == 0 || field[e] == SPACE;
  }

  lemma FullNameIs(slot: Slot, n: nat, m: nat)
    requires n <= 8 && m <= 3 && EndsField(slot[..8], n) && EndsField(slot[8..11], m)
    ensures FullName(slot) == NameText(slot, n, m)
  {
    FieldEnd(slot[..8], n);
    FieldEnd(slot[8..11], m);
    assert slot[..8][..n] == slot[..n] && slot[8..11][..m] == slot[8..8 + m];
    assert m == 0 <==> slot[8..11][0] == 0 || slot[8..11][0] == SPACE;
  }

  /** `text` is name, dot and extension of the slot. */
  ghost predicate IsNameText(slot: Slot, text: seq<byte>) {
    exists n: nat, m: nat ::
      n <= 8 && m <= 3 && EndsField(slot[..8], n) && EndsField(slot[8..11], m) && text == NameText(slot, n, m)
  }

  lemma FullNameText(slot: Slot)
    ensures IsNameText(slot, FullName(slot))
  {
    var n, m := |Trim(slot[..8])|, |Trim(slot[8..11])|;
    FieldEnd(slot[..8], n);
    FieldEnd(slot[8..11], m);
    FullNameIs(slot, n, m);
  }

  lemma SameTextIs(s: seq<byte>, t: seq<byte>)
    ensures EqualFold(s, t) <==> SameText(s, t)
  {
    if |s| == |t| {
      forall i | 0 <= i < |s| ensures ToLower(s[i]) == ToLower(t[i]) <==> SameLetter(s[i], t[i]) {
      }
    }
  }

  /** The comparison of the lookup finds a slot by its name in characters and by no other. */
  lemma NamedIff(slot: Slot, name: seq<byte>)
    ensures EqualFold(FullName(slot), name) <==> Named(slot, name)
  {
    var n, m := |Trim(slot[..8])|, |Trim(slot[8..11])|;
    FieldEnd(slot[..8], n);
    FieldEnd(slot[8..11], m);
    FullNameIs(slot, n, m);
    SameTextIs(NameText(slot, n, m), name);
    if Named(slot, name) {
      var x: nat, y: nat :| x <= 8 && y <= 3 && EndsField(slot[..8], x) && EndsField(slot[8..11], y)
                            && SameText(NameText(slot, x, y), name);
      FieldEnd(slot[..8], x);
      FieldEnd(slot[8..11], y);
    }
  }

  /** The bytes of `text`, filled up with spaces. */
  predicate Padded(field: seq<byte>, text: seq<byte>) {
    && |text| <= |field| && (forall k :: 0 <= k < |text| ==> field[k] == text[k])
    && forall k :: |text| <= k < |field| ==> field[k] == 0x20
  }

  predicate Plain(text: seq<byte>) {
    forall k :: 0 <= k < |text| ==> text[k] != 0 && text[k] != 0x20
  }

  /** So a slot with a name and an extension padded with spaces is found by both with a dot between
      them, or by the name alone if there is no extension, whatever the case of the letters. */
  lemma PaddedName(slot: Slot, a: seq<byte>, e: seq<byte>, name: seq<byte>)
    requires Padded(slot[..8], a) && Padded(slot[8..11], e) && Plain(a) && Plain(e)
    ensures FirstMatch([slot], name, 1) == 0 <==> SameText(if e == [] then a else a + [0x2E] + e, name)
  {
    assert EndsField(slot[..8], |a|) && EndsField(slot[8..11], |e|);
    assert slot[..|a|] == a && slot[8..8 + |e|] == e;
    FullNameIs(slot, |a|, |e|);
    SameTextIs(FullName(slot), name);
    assert [slot][0] == slot && FirstMatch([slot], name, 0) == -1;
  }

  /** KERNEL.BIN */
  lemma KernelFound(slot: Slot)
    requires slot[..11] == [75, 69, 82, 78, 69, 76, 32, 32, 66, 73, 78]
    ensures FirstMatch([slot], [107, 101, 114, 110, 101, 108, 46, 98, 105, 110], 1) == 0
  {
    assert slot[..8] == slot[..11][..8] && slot[8..11] == slot[..11][8..];
    PaddedName(slot, [75, 69, 82, 78, 69, 76], [66, 73, 78], [107, 101, 114, 110, 101, 108, 46, 98, 105, 110]);
  }

  /** fat16_to_proper_string: appends the trimmed field at `at` and a NUL after it. */
  method ToProperString(out: array<byte>, at: nat, field: seq<byte>) returns (end: nat)
    requires at + |field| < out.Length
    modifies out
    ensures end == at + |Trim(field)| && end < out.Length && EndsField(field, end - at)
    ensures forall k :: 0 <= k < out.Length ==>
              out[k] == if at <= k < end then field[k - at] else if k == end then 0 else old(out[k])
  {
    var i := 0;
    while i < |field| && field[i] != 0 && field[i] != SPACE
      invariant 0 <= i <= |field| && TrimEnd(field, 0) == TrimEnd(field, i)
      invariant forall k :: 0 <= k < out.Length ==>
                  out[k] == if at <= k < at + i then field[k - at] else old(out[k])
    {
      out[at + i] := field[i];
      i := i + 1;
    }
    end := at + i;
    out[end] := 0;
  }

  /** Where the string in a buffer ends: at the first NUL from `i` on. */
  function CEnd(buf: seq<byte>, i: nat): (e: nat)
    requires i <= |buf|
    ensures i <= e <= |buf| && (e < |buf| ==> buf[e] == 0) && forall k :: i <= k < e ==> buf[k] != 0
    decreases |buf| - i
  {
    if i == |buf| || buf[i] == 0 then i else CEnd(buf, i + 1)
  }

  /** The string a buffer holds: everything before the first NUL. */
  function CString(buf: seq<byte>): (r: seq<byte>) {
    buf[..CEnd(buf, 0)]
  }

  lemma CStringIs(buf: seq<byte>, s: seq<byte>)
    requires |s| < |buf| && buf[|s|] == 0 && 0 !in s
    requires forall k :: 0 <= k < |s| ==> buf[k] == s[k]
    ensures CString(buf) == s
  {
    assert forall k :: 0 <= k < |s| ==> s[k] in s;
    assert CEnd(buf, 0) == |s|;
  }

  /** Name, dot and extension, each piece with its NUL. */
  method PutName(slot: Slot, out: array<byte>)
    requires out.Length == MAX_PATH
    modifies out
    ensures CString(out[..]) == FullName(slot)
  {
    var name, ext := slot[..8], slot[8..11];
    ghost var full := FullName(slot);
    var end := ToProperString(out, 0, name);
    if ext[0] != 0 && ext[0] != SPACE {
      out[end] := DOT;
      var last := ToProperString(out, end + 1, ext);
      assert last == |full|;
    }
    CStringIs(out[..], full);
  }

  /** fat16_get_full_relative_filename */
  method GetFullRelativeFilename(slot: Slot, out: array<byte>)
    requires out.Length == MAX_PATH
    modifies out
    ensures CString(out[..]) == FullName(slot) && |FullName(slot)| < out.Length
    ensures IsNameText(slot, CString(out[..]))
  {
    for i := 0 to out.Length
      invariant forall j :: 0 <= j < i ==> out[j] == 0
    {
      out[i] := 0;
    }
    PutName(slot, out);
    FullNameText(slot);
  }

  // ---- Comparing without case ----

  /** tolower on a signed char: bytes from 128 up are negative and stay. */
  function ToLower(b: byte): (r: byte) {
    if 65 <= b <= 90 then b + 32 else b
  }

  /** Equal strings apart from the case of ASCII letters. */
  predicate EqualFold(a: seq<byte>, b: seq<byte>) {
    |a| == |b| && forall i :: 0 <= i < |a| ==> ToLower(a[i]) == ToLower(b[i])
  }

  /** The first place where the strings differ in more than case. */
  ghost predicate FirstDifference(a: seq<byte>, b: seq<byte>, i: nat) {
    && i < |a| && i < |b| && ToLower(a[i]) != ToLower(b[i])
    && forall j :: 0 <= j < i ==> ToLower(a[j]) == ToLower(b[j])
  }

  /** istrncmp of two NUL-terminated strings: at most their first `n` characters count. */
  method Istrncmp(s1: seq<byte>, s2: seq<byte>, n: nat) returns (r: int)
    requires |CString(s1)| < |s1| && |CString(s2)| < |s2|
    ensures r == 0 <==> EqualFold(Truncate(CString(s1), n), Truncate(CString(s2), n))
    ensures |CString(s1)| < n ==> (r == 0 <==> EqualFold(CString(s1), CString(s2)))
    ensures r != 0 ==> exists i: nat :: FirstDifference(s1, s2, i) && r == s1[i] as int - s2[i] as int
  {
    ghost var a, b := CString(s1), CString(s2);
    var i, left := 0, n;
    while left > 0
      invariant left == n - i && 0 <= i <= |a| && i <= |b| && i <= n
      invariant forall j :: 0 <= j < i ==> ToLower(a[j]) == ToLower(b[j])
    {
      var u1: int, u2: int := s1[i], s2[i];
      if i < |a| { assert s1[i] == a[i] && a[i] in a; }
      if i < |b| { assert s2[i] == b[i] && b[i] in b; }
      if u1 != u2 && ToLower(u1) != ToLower(u2) {
        assert FirstDifference(s1, s2, i);
        return u1 - u2;
      }
      if u1 == 0 {
        return 0;
      }
      i := i + 1;
      left := left - 1;
    }
    r := 0;
  }

  // ---- The directory ----

  /** Slot `i` of a directory that starts at disk position `start`. */
  function SlotAt(disk: Disk, start: nat, i: nat): Slot {
    var s := seq<byte>(SLOT_SIZE, j requires 0 <= j < SLOT_SIZE => disk.Byte(start + SLOT_SIZE * i + j));
    assert |s| == SLOT_SIZE;
    s
  }

  predicate EndsAt(disk: Disk, start: nat, n: nat) {
    SlotAt(disk, start, n)[0] == 0 && forall i :: 0 <= i < n ==> SlotAt(disk, start, i)[0] != 0
  }

  /** The slots before the end marker. */
  function Slots(disk: Disk, start: nat, n: nat): (r: seq<Slot>)
    ensures |r| == n
  {
    seq<Slot>(n, i requires 0 <= i < n => SlotAt(disk, start, i))
  }

  /** Slots in use. */
  function CountLive(slots: seq<Slot>): (n: nat)
    ensures n <= |slots|
  {
    if slots == [] then 0
    else CountLive(slots[..|slots| - 1]) + if slots[|slots| - 1][0] == DELETED then 0 else 1
  }

  /** fat16_get_total_items_for_directory, for a directory that has an end marker. */
  method GetTotalItems(stream: DiskStream, start: nat, ghost n: nat) returns (res: int)
    requires EndsAt(stream.disk, start, n) && start + SLOT_SIZE * (n + 1) < INT_LIMIT
    modifies stream
    ensures res == CountLive(Slots(stream.disk, start, n))
  {
    var item := new byte[SLOT_SIZE];
    var count := 0;
    ghost var slots := Slots(stream.disk, start, n);
    ghost var seen := 0;
    var done := stream.Seek(start);
    while true
      invariant stream.pos == start + SLOT_SIZE * seen && 0 <= seen <= n
      invariant count == CountLive(slots[..seen])
      decreases n - seen
    {
      done := stream.Read(item, 0, SLOT_SIZE);
      assert item[0] == SlotAt(stream.disk, start, seen)[0];
      if item[0] == 0 {
        break;
      }
      assert slots[..seen + 1][..seen] == slots[..seen];
      seen := seen + 1;
      if item[0] == DELETED {
        continue;
      }
      count := count + 1;
    }
    assert seen == n;
    assert slots[..n] == slots;
    res := count;
  }

  /** Index of the first slot of that name among the first `total`, or -1. */
  function FirstMatch(slots: seq<Slot>, name: seq<byte>, total: nat): (r: int)
    requires total <= |slots|
    ensures -1 <= r < total
    ensures r == -1 ==> forall i :: 0 <= i < total ==> !EqualFold(FullName(slots[i]), name)
    ensures r != -1 ==> EqualFold(FullName(slots[r]), name)
                        && forall i :: 0 <= i < r ==> !EqualFold(FullName(slots[i]), name)
  {
    if total == 0 then -1
    else
      var r := FirstMatch(slots, name, total - 1);
      if r != -1 then r else if EqualFold(FullName(slots[total - 1]), name) then total - 1 else -1
  }

  /** The loop of fat16_find_item_in_directory. */
  method Scan(slots: seq<Slot>, total: nat, name: seq<byte>) returns (res: int)
    requires total <= |slots| && |CString(name)| < |name|
    ensures res == FirstMatch(slots, CString(name), total)
  {
    var tmp := new byte[MAX_PATH];
    for i := 0 to total
      invariant FirstMatch(slots, CString(name), i) == -1
    {
      GetFullRelativeFilename(slots[i], tmp);
      var r := Istrncmp(tmp[..], name, MAX_PATH);
      if r == 0 {
        FirstMatchStays(slots, CString(name), i, total);
        return i;
      }
    }
    res := -1;
  }

  /** fat16_find_item_in_directory, as far as it chooses the slot; `name` is a C string. */
  method FindItem(slots: seq<Slot>, total: nat, name: seq<byte>) returns (res: int)
    requires total <= |slots| && |CString(name)| < |name|
    ensures res == FirstMatch(slots, CString(name), total)
    ensures res == -1 <==> forall i :: 0 <= i < total ==> !Named(slots[i], CString(name))
    ensures res != -1 ==> 0 <= res < total && Named(slots[res], CString(name))
                          && forall i :: 0 <= i < res ==> !Named(slots[i], CString(name))
  {
    forall i | 0 <= i < total ensures EqualFold(FullName(slots[i]), CString(name)) <==> Named(slots[i], CString(name)) {
      NamedIff(slots[i], CString(name));
    }
    res := Scan(slots, total, name);
  }

  lemma {:induction false} FirstMatchStays(slots: seq<Slot>, name: seq<byte>, i: nat, total: nat)
    requires i < total <= |slots| && FirstMatch(slots, name, i) == -1 && EqualFold(FullName(slots[i]), name)
    ensures FirstMatch(slots, name, total) == i
  {
    if total > i + 1 { FirstMatchStays(slots, name, i, total - 1); }
  }

  // ---- What the lookup finds ----

  predicate IsLive(slots: seq<Slot>, i: nat)
    requires i < |slots|
  {
    var slot := slots[i];
    slot[0] != DELETED
  }

  /** The lowest index in [i, n) of which `p` holds, or -1. */
  function FirstIndex(p: nat -> bool, i: nat, n: nat): (r: int)
    requires i <= n
    ensures r == -1 <==> forall k :: i <= k < n ==> !p(k)
    ensures r != -1 ==> i <= r < n && p(r) && forall k :: i <= k < r ==> !p(k)
    decreases n - i
  {
    if i == n then -1 else if p(i) then i else FirstIndex(p, i + 1, n)
  }

  predicate LiveMatch(slots: seq<Slot>, name: seq<byte>, i: nat) {
    i < |slots| && IsLive(slots, i) && EqualFold(FullName(slots[i]), name)
  }

  /** Index of the first slot in use that has the name, or -1. */
  function FirstLiveMatch(slots: seq<Slot>, name: seq<byte>): (r: int)
    ensures r == -1 <==> forall i :: 0 <= i < |slots| ==> !LiveMatch(slots, name, i)
    ensures r != -1 ==> 0 <= r && LiveMatch(slots, name, r) && forall i :: 0 <= i < r ==> !LiveMatch(slots, name, i)
  {
    var p := (i: nat) => LiveMatch(slots, name, i);
    var r := FirstIndex(p, 0, |slots|);
    assert forall i: nat :: p(i) == LiveMatch(slots, name, i);
    r
  }

  /** A deleted slot keeps 0xE5 as the first character of its name. */
  lemma DeletedName(slot: Slot, name: seq<byte>)
    requires slot[0] == DELETED && EqualFold(FullName(slot), name)
    ensures name != [] && name[0] == DELETED
  {
    assert Trim(NameField(slot))[0] == DELETED;
    assert FullName(slot)[0] == DELETED;
  }

  /** The scan covers as many slots as are in use, counted from the first. So for names
      that do not start with 0xE5 it answers with the first slot in use that has the
      name exactly when there is none or that slot lies among those. */
  lemma LookupIff(slots: seq<Slot>, name: seq<byte>)
    requires name == [] || name[0] != DELETED
    ensures FirstMatch(slots, name, CountLive(slots)) == FirstLiveMatch(slots, name)
            <==> FirstLiveMatch(slots, name) < CountLive(slots)
  {
    var total := CountLive(slots);
    var found, first := FirstMatch(slots, name, total), FirstLiveMatch(slots, name);
    if found != -1 {
      if !IsLive(slots, found) { DeletedName(slots[found], name); }
      assert LiveMatch(slots, name, found);
    }
  }

  lemma {:induction false} NoneDeleted(slots: seq<Slot>)
    ensures CountLive(slots) == |slots| <==> forall i :: 0 <= i < |slots| ==> IsLive(slots, i)
  {
    if slots != [] {
      var n := |slots| - 1;
      NoneDeleted(slots[..n]);
      assert forall i :: 0 <= i < n ==> IsLive(slots[..n], i) == IsLive(slots, i);
      assert CountLive(slots) == |slots| <==> CountLive(slots[..n]) == n && IsLive(slots, n);
    }
  }

  /** Without deleted slots every name is found where it first occurs. */
  lemma LookupExact(slots: seq<Slot>, name: seq<byte>)
    requires forall i :: 0 <= i < |slots| ==> IsLive(slots, i)
    ensures CountLive(slots) == |slots|
    ensures FirstMatch(slots, name, CountLive(slots)) == FirstLiveMatch(slots, name)
  {
    NoneDeleted(slots);
    var found, first := FirstMatch(slots, name, CountLive(slots)), FirstLiveMatch(slots, name);
    if found != -1 { assert LiveMatch(slots, name, found); }
    if first != -1 { assert LiveMatch(slots, name, first); }
  }

  /** One deleted slot in front hides the last one from the scan. */
  lemma DeletedHidesLast(gone: Slot, last: Slot)
    requires gone[0] == DELETED && last[0] != DELETED && last[0] != 0 && last[0] != SPACE
    ensures var slots := [gone, last];
      FirstMatch(slots, FullName(last), CountLive(slots)) == -1 && FirstLiveMatch(slots, FullName(last)) == 1
  {
    var slots := [gone, last];
    assert slots[..1] == [gone] && [gone][..0] == [];
    assert CountLive([gone]) == 0 && CountLive(slots) == 1;
    assert EqualFold(FullName(last), FullName(last));
    assert Trim(NameField(last))[0] == last[0];
    if EqualFold(FullName(gone), FullName(last)) { DeletedName(gone, FullName(last)); }
    assert FirstMatch(slots, FullName(last), 0) == -1;
    assert LiveMatch(slots, FullName(last), 1) && !LiveMatch(slots, FullName(last), 0);
  }

  // ---- The root directory ----

  /** directory->item[i] */
  function ItemOf(items: seq<byte>, i: nat): Slot
    requires SLOT_SIZE * (i + 1) <= |items|
  {
    items[SLOT_SIZE * i..SLOT_SIZE * (i + 1)]
  }

  /** The buffer holds the first slots on the disk. */
  lemma ItemsAreSlots(disk: Disk, start: nat, items: seq<byte>, i: nat)
    requires SLOT_SIZE * (i + 1) <= |items| && forall k :: 0 <= k < |items| ==> items[k] == disk.Byte(start + k)
    ensures ItemOf(items, i) == SlotAt(disk, start, i)
  {
    forall j | 0 <= j < SLOT_SIZE ensures ItemOf(items, i)[j] == SlotAt(disk, start, i)[j] {
      assert ItemOf(items, i)[j] == items[SLOT_SIZE * i + j];
      assert start + (SLOT_SIZE * i + j) == start + SLOT_SIZE * i + j;
    }
  }

  /** fat16_get_root_directory: total and slots, read from where the root directory lies. */
  method GetRootDirectory(vol: F.Volume, stream: DiskStream, ghost n: nat) returns (items: array<byte>, total: int)
    requires stream.disk == vol.disk && EndsAt(vol.disk, vol.RootDirSector() * SECTOR_SIZE, n)
    requires vol.RootDirSector() * SECTOR_SIZE + SLOT_SIZE * (n + 1) < INT_LIMIT
    requires vol.RootDirSector() * SECTOR_SIZE + SLOT_SIZE * vol.rootDirEntries < INT_LIMIT
    modifies stream
    ensures fresh(items) && items.Length == SLOT_SIZE * vol.rootDirEntries
    ensures forall i :: 0 <= i < vol.rootDirEntries ==>
              ItemOf(items[..], i) == SlotAt(vol.disk, vol.RootDirSector() * SECTOR_SIZE, i)
    ensures total == CountLive(Slots(vol.disk, vol.RootDirSector() * SECTOR_SIZE, n))
  {
    var start := vol.RootDirSector() * SECTOR_SIZE;
    total := GetTotalItems(stream, start, n);
    items := new byte[SLOT_SIZE * vol.rootDirEntries];
    var res := stream.Seek(start);
    res := stream.Read(items, 0, items.Length);
    forall i | 0 <= i < vol.rootDirEntries ensures ItemOf(items[..], i) == SlotAt(vol.disk, start, i) {
      ItemsAreSlots(vol.disk, start, items[..], i);
    }
  }

  /** Only the first `total` slots matter to the scan. */
  lemma {:induction false} FirstMatchPrefix(a: seq<Slot>, b: seq<Slot>, name: seq<byte>, total: nat)
    requires total <= |a| && total <= |b| && forall i :: 0 <= i < total ==> a[i] == b[i]
    ensures FirstMatch(a, name, total) == FirstMatch(b, name, total)
  {
    if total > 0 { FirstMatchPrefix(a, b, name, total - 1); }
  }

  /** directory->item as the slots it holds. */
  function Entries(items: seq<byte>, count: nat): (r: seq<Slot>)
    requires SLOT_SIZE * count <= |items|
    ensures |r| == count && forall i :: 0 <= i < count ==> r[i] == ItemOf(items, i)
  {
    seq<Slot>(count, i requires 0 <= i < count => ItemOf(items, i))
  }

  /** The scan's answer for the counted slots: the first slot in use of that name, exactly as LookupIff says. */
  ghost predicate Answers(slots: seq<Slot>, name: seq<byte>, res: int) {
    && res == FirstMatch(slots, name, CountLive(slots))
    && (name == [] || name[0] != DELETED ==>
          (res == FirstLiveMatch(slots, name) <==> FirstLiveMatch(slots, name) < CountLive(slots)))
  }

  lemma EntriesAnswer(entries: seq<Slot>, slots: seq<Slot>, name: seq<byte>)
    requires CountLive(slots) <= |entries|
    requires forall i :: 0 <= i < CountLive(slots) ==> entries[i] == slots[i]
    ensures Answers(slots, name, FirstMatch(entries, name, CountLive(slots)))
  {
    FirstMatchPrefix(entries, slots, name, CountLive(slots));
    if name == [] || name[0] != DELETED { LookupIff(slots, name); }
  }

  /** A name looked up in the root directory as the disk has it. The slots counted must
      fit the directory, or the scan leaves its buffer. */
  method LookupRoot(vol: F.Volume, stream: DiskStream, name: seq<byte>, ghost n: nat) returns (res: int)
    requires stream.disk == vol.disk && EndsAt(vol.disk, vol.RootDirSector() * SECTOR_SIZE, n)
    requires vol.RootDirSector() * SECTOR_SIZE + SLOT_SIZE * (n + 1) < INT_LIMIT
    requires vol.RootDirSector() * SECTOR_SIZE + SLOT_SIZE * vol.rootDirEntries < INT_LIMIT
    requires CountLive(Slots(vol.disk, vol.RootDirSector() * SECTOR_SIZE, n)) <= vol.rootDirEntries
    requires |CString(name)| < |name|
    modifies stream
    ensures Answers(Slots(vol.disk, vol.RootDirSector() * SECTOR_SIZE, n), CString(name), res)
  {
    var start := vol.RootDirSector() * SECTOR_SIZE;
    var items, total := GetRootDirectory(vol, stream, n);
    var entries := Entries(items[..], vol.rootDirEntries);
    res := FindItem(entries, total, name);
    EntriesAnswer(entries, Slots(vol.disk, start, n), CString(name));
  }
}
