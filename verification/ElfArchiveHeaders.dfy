/**
 The headers of archive members: their names, short or kept in the archive's string table, and their sizes.
 */
module ElfArchiveHeaders {
  import opened Basics
  import opened ElfArchiveNumbers

  const HEADER_SIZE: nat := 60
  const SARMAG: nat := 8
  const SLASH: byte := 0x2f

  function Magic(): (m: seq<byte>)
    ensures |m| == 8
  {
    [0x21, 0x3c, 0x61, 0x72, 0x63, 0x68, 0x3e, 0x0a]
  }

  function HeaderMagic(): (m: seq<byte>)
    ensures |m| == 2
  {
    [0x60, 0x0a]
  }

  /** No ELF file starts like an archive. */
  predicate IsArchive(data: seq<byte>) {
    |data| >= SARMAG && data[..SARMAG] == Magic()
  }

  datatype Error = Outside | TruncHeader | BadMagic | NoStringTable | BadName | BadNumber | TruncMember

  datatype Attributes = Attributes(date: nat, uid: nat, gid: nat, mode: nat)

  datatype Member = Member(name: seq<byte>, attributes: Attributes, size: nat) | NoMore | BadHeader(error: Error)

  datatype Name = Name(text: seq<byte>) | BadText(error: Error)

  // ----- Numbers -----

  ghost function NumberOf(s: seq<byte>, base: nat): Option<nat> {
    if exists lo: nat, hi: nat :: IsField(s, base, lo, hi) then
      var lo: nat, hi: nat :| IsField(s, base, lo, hi);
      Some(Value(s, lo, hi, base))
    else None
  }

  lemma NumberIs(s: seq<byte>, base: nat, lo: nat, hi: nat)
    requires IsField(s, base, lo, hi)
    ensures NumberOf(s, base) == Some(Value(s, lo, hi, base))
  {
    forall lo': nat, hi': nat | IsField(s, base, lo', hi')
      ensures Value(s, lo', hi', base) == Value(s, lo, hi, base)
    {
      FieldHasOneValue(s, base, lo', hi', lo, hi);
    }
  }

  method ReadNumber(s: seq<byte>, base: nat) returns (r: Option<nat>)
    ensures r == NumberOf(s, base)
  {
    var result, err := GetNum(s, base);
    r := if err then None else Some(result);
  }

  // ----- Names -----

  /** The length of a name without the spaces behind it. */
  function NameLength(s: seq<byte>, n: nat): (len: nat)
    requires n <= |s|
    ensures len <= n && (len > 0 ==> s[len - 1] != SPACE) && forall i :: len <= i < n ==> s[i] == SPACE
  {
    if n == 0 || s[n - 1] != SPACE then n else NameLength(s, n - 1)
  }

  /** Where the name that starts at `at` of the string table ends; the length of the table if it has no end. */
  function NameEnd(table: seq<byte>, at: nat): (end: nat)
    requires at <= |table|
    ensures at <= end <= |table| && (end < |table| ==> table[end] == SLASH)
    ensures forall i :: at <= i < end ==> table[i] != SLASH
    decreases |table| - at
  {
    if at == |table| || table[at] == SLASH then at else NameEnd(table, at + 1)
  }

  ghost function LongName(digits: seq<byte>, table: Option<seq<byte>>): Name {
    if table.None? then BadText(NoStringTable)
    else
      match NumberOf(digits, 10)
      case None => BadText(BadName)
      case Some(at) =>
        if at >= |table.value| || NameEnd(table.value, at) == |table.value| then BadText(NoStringTable)
        else Name(table.value[at..NameEnd(table.value, at)])
  }

  /** A slash ends a short name; after a slash come a place in the string table or a special name. */
  ghost function NameOf(s: seq<byte>, table: Option<seq<byte>>): Name
    requires |s| == 16
  {
    var len := NameLength(s, 16);
    if s[0] == SLASH then
      if IsDigit(s[1], 10) then LongName(s[1..len], table)
      else if len != 1 && !(len == 2 && s[1] == SLASH) then BadText(BadName)
      else Name(s[..len])
    else if len > 0 && s[len - 1] == SLASH then Name(s[..len - 1])
    else Name(s[..len])
  }

  method ReadLongName(digits: seq<byte>, table: Option<seq<byte>>) returns (r: Name)
    ensures r == LongName(digits, table)
  {
    if table.None? {
      return BadText(NoStringTable);
    }
    var at := ReadNumber(digits, 10);
    if at.None? {
      return BadText(BadName);
    }
    if at.value >= |table.value| {
      return BadText(NoStringTable);
    }
    var end := at.value;
    while end < |table.value| && table.value[end] != SLASH
      invariant at.value <= end <= |table.value| && NameEnd(table.value, at.value) == NameEnd(table.value, end)
    {
      end := end + 1;
    }
    r := if end == |table.value| then BadText(NoStringTable) else Name(table.value[at.value..end]);
  }

  method ReadName(s: seq<byte>, table: Option<seq<byte>>) returns (r: Name)
    requires |s| == 16
    ensures r == NameOf(s, table)
  {
    var len := 16;
    while len > 0 && s[len - 1] == SPACE
      invariant 0 <= len <= 16 && NameLength(s, 16) == NameLength(s, len)
    {
      len := len - 1;
    }
    if s[0] == SLASH {
      if IsDigit(s[1], 10) {
        r := ReadLongName(s[1..len], table);
      } else if len != 1 && !(len == 2 && s[1] == SLASH) {
        r := BadText(BadName);
      } else {
        r := Name(s[..len]);
      }
    } else if len > 0 && s[len - 1] == SLASH {
      r := Name(s[..len - 1]);
    } else {
      r := Name(s[..len]);
    }
  }

  // ----- Headers -----

  /** Date, owner, group, mode and size; all of them have to be numbers. */
  ghost function Numbers(h: seq<byte>): Option<(Attributes, nat)>
    requires |h| == HEADER_SIZE
  {
    var date, uid, gid := NumberOf(h[16..28], 10), NumberOf(h[28..34], 10), NumberOf(h[34..40], 10);
    var mode, size := NumberOf(h[40..48], 8), NumberOf(h[48..58], 10);
    if date.Some? && uid.Some? && gid.Some? && mode.Some? && size.Some? then
      Some((Attributes(date.value, uid.value, gid.value, mode.value), size.value))
    else None
  }

  ghost function ParseHeader(h: seq<byte>, table: Option<seq<byte>>): Member
    requires |h| == HEADER_SIZE
  {
    if h[58..] != HeaderMagic() then BadHeader(BadMagic)
    else
      match NameOf(h[..16], table)
      case BadText(e) => BadHeader(e)
      case Name(text) =>
        match Numbers(h)
        case None => BadHeader(BadNumber)
        case Some((attributes, size)) => Member(text, attributes, size)
  }

  /** The member whose header is at `off`. */
  ghost function MemberAt(data: seq<byte>, off: nat, table: Option<seq<byte>>): (m: Member)
    ensures m.Member? ==> off + HEADER_SIZE + m.size <= |data|
  {
    if off == |data| then NoMore
    else if off > |data| then BadHeader(Outside)
    else if off + HEADER_SIZE > |data| then BadHeader(TruncHeader)
    else
      var m := ParseHeader(data[off..off + HEADER_SIZE], table);
      if m.Member? && off + HEADER_SIZE + m.size > |data| then BadHeader(TruncMember) else m
  }

  method ReadNumbers(h: seq<byte>) returns (r: Option<(Attributes, nat)>)
    requires |h| == HEADER_SIZE
    ensures r == Numbers(h)
  {
    var date := ReadNumber(h[16..28], 10);
    var uid := ReadNumber(h[28..34], 10);
    var gid := ReadNumber(h[34..40], 10);
    var mode := ReadNumber(h[40..48], 8);
    var size := ReadNumber(h[48..58], 10);
    if date.None? || uid.None? || gid.None? || mode.None? || size.None? {
      return None;
    }
    r := Some((Attributes(date.value, uid.value, gid.value, mode.value), size.value));
  }

  method ReadHeader(data: seq<byte>, off: nat, table: Option<seq<byte>>) returns (m: Member)
    ensures m == MemberAt(data, off, table)
  {
    if off == |data| {
      return NoMore;
    }
    if off > |data| {
      return BadHeader(Outside);
    }
    if off + HEADER_SIZE > |data| {
      return BadHeader(TruncHeader);
    }
    var h := data[off..off + HEADER_SIZE];
    if h[58..] != HeaderMagic() {
      return BadHeader(BadMagic);
    }
    var name := ReadName(h[..16], table);
    if name.BadText? {
      return BadHeader(name.error);
    }
    var numbers := ReadNumbers(h);
    if numbers.None? {
      return BadHeader(BadNumber);
    }
    var (attributes, size) := numbers.value;
    if off + HEADER_SIZE + size > |data| {
      return BadHeader(TruncMember);
    }
    m := Member(name.text, attributes, size);
  }

  /** Header and contents, which take an even number of bytes. */
  function PackedSize(size: nat): nat {
    HEADER_SIZE + size + size % 2
  }

  // ----- The string table -----

  /** Passes the symbol tables at the start of an archive. */
  ghost function StringTable(data: seq<byte>, off: nat): Option<seq<byte>>
    decreases |data| - off
  {
    if off + HEADER_SIZE > |data| then None
    else
      var h := data[off..off + HEADER_SIZE];
      var size := NumberOf(h[48..58], 10);
      var at := off + HEADER_SIZE;
      if h[58..] != HeaderMagic() || h[0] != SLASH || size.None? || size.value == 0
         || at + size.value > |data|
      then None
      else if h[1] == SLASH && h[2] == SPACE then Some(data[at..at + size.value])
      else if h[1] != SPACE then None
      else StringTable(data, at + size.value + size.value % 2)
  }

  method FindStringTable(data: seq<byte>) returns (table: Option<seq<byte>>)
    ensures table == StringTable(data, SARMAG)
  {
    var off := SARMAG;
    while off + HEADER_SIZE <= |data|
      invariant StringTable(data, SARMAG) == StringTable(data, off)
      decreases |data| - off
    {
      var h := data[off..off + HEADER_SIZE];
      if h[58..] != HeaderMagic() || h[0] != SLASH {
        return None;
      }
      var size := ReadNumber(h[48..58], 10);
      if size.None? || size.value == 0 {
        return None;
      }
      off := off + HEADER_SIZE;
      if off + size.value > |data| {
        return None;
      }
      if h[1] == SLASH && h[2] == SPACE {
        return Some(data[off..off + size.value]);
      }
      if h[1] != SPACE {
        return None;
      }
      off := off + size.value + size.value % 2;
    }
    table := None;
  }
}
