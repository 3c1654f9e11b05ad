/** The text form of an access control list: acl_serialize and acl_deserialize of src/common/acl.c. */
module AclText {
  import opened CTypes
  import opened Records
  import opened TextLines
  import opened AccessLists

  function EntryLine(e: AclEntry): string {
    e.user + "=" + (if e.write then "RW" else "R")
  }

  function EntryLines(entries: seq<AclEntry>): seq<string> {
    if entries == [] then [] else [EntryLine(entries[0])] + EntryLines(entries[1..])
  }

  function AclLines(acl: Acl): seq<string> {
    ["owner=" + acl.owner] + EntryLines(acl.entries)
  }

  /** acl_serialize into a buffer of `size` bytes; None where the code returns an error. */
  function Serialize(acl: Acl, size: nat): Option<string> {
    var text := Unlines(AclLines(acl));
    if |text| < size then Some(text) else None
  }

  /** One line: the owner, a user's rights, or nothing. */
  function TakeLine(acl: Acl, line: string): Acl {
    var k := Strchr(line, '=');
    if "owner=" <= line then acl.(owner := Fit(line[6..], MAX_USERNAME))
    else if k < |line| && |acl.entries| < MAX_ACL_ENTRIES then
      var perm := line[k + 1..];
      acl.(entries := acl.entries + [AclEntry(Fit(line[..k], MAX_USERNAME), perm == "RW" || perm == "R", perm == "RW")])
    else acl
  }

  function TakeLines(acl: Acl, lines: seq<string>): Acl
    decreases |lines|
  {
    if lines == [] then acl else TakeLine(TakeLines(acl, lines[..|lines| - 1]), lines[|lines| - 1])
  }

  const NOBODY := Acl("", [])

  /** acl_deserialize */
  function Deserialize(text: string): Acl {
    TakeLines(NOBODY, Lines(text))
  }

  // ---------------------------------------------------------------- the round trip

  predicate Plain(s: string) {
    |s| < MAX_USERNAME && '\n' !in s
  }

  /** A user name that a line of the text can carry. */
  predicate UserOk(user: string) {
    Plain(user) && '=' !in user && user != "owner"
  }

  ghost predicate NamesOk(acl: Acl) {
    && Plain(acl.owner) && |acl.entries| <= MAX_ACL_ENTRIES
    && forall e :: e in acl.entries ==> UserOk(e.user)
  }

  /** What reading back makes of an entry: the text has no form for one without read access. */
  function Readable(entries: seq<AclEntry>): (r: seq<AclEntry>)
    ensures |r| == |entries|
    ensures forall i :: 0 <= i < |r| ==> r[i] == entries[i].(read := true)
  {
    seq(|entries|, i requires 0 <= i < |entries| => entries[i].(read := true))
  }

  lemma OwnerLine(line: string)
    ensures "owner=" <= line ==> Strchr(line, '=') == 5 && line[..5] == "owner"
  {
    if "owner=" <= line {
      StrchrOf("owner", '=', line[6..]);
      assert line == "owner" + "=" + line[6..];
    }
  }

  lemma EntryLineFacts(e: AclEntry)
    requires UserOk(e.user)
    ensures LineOk(EntryLine(e)) && !("owner=" <= EntryLine(e))
    ensures Strchr(EntryLine(e), '=') == |e.user|
  {
    var perm := if e.write then "RW" else "R";
    var line := e.user + "=" + perm;
    StrchrOf(e.user, '=', perm);
    OwnerLine(line);
    assert line[..|e.user|] == e.user;
  }

  lemma TakesEntry(acl: Acl, e: AclEntry)
    requires UserOk(e.user) && |acl.entries| < MAX_ACL_ENTRIES
    ensures TakeLine(acl, EntryLine(e)) == acl.(entries := acl.entries + [e.(read := true)])
  {
    EntryLineFacts(e);
    var line, k := EntryLine(e), |e.user|;
    assert line[..k] == e.user && line[k + 1..] == if e.write then "RW" else "R";
    hide EntryLine;
  }

  lemma {:induction false} EntryLinesSnoc(entries: seq<AclEntry>, e: AclEntry)
    ensures EntryLines(entries + [e]) == EntryLines(entries) + [EntryLine(e)]
  {
    if entries == [] {
      assert [e][1..] == [] && entries + [e] == [e];
    } else {
      assert (entries + [e])[1..] == entries[1..] + [e];
      EntryLinesSnoc(entries[1..], e);
    }
  }

  lemma AclLinesSnoc(front: Acl, e: AclEntry)
    ensures var all := AclLines(front.(entries := front.entries + [e]));
            all == AclLines(front) + [EntryLine(e)] && all[..|all| - 1] == AclLines(front)
  {
    hide EntryLine;
    EntryLinesSnoc(front.entries, e);
  }

  lemma TakesOwner(acl: Acl)
    requires NamesOk(acl) && acl.entries == []
    ensures AclLines(acl) == ["owner=" + acl.owner] && LineOk(AclLines(acl)[0])
    ensures TakeLines(NOBODY, AclLines(acl)) == acl.(entries := Readable(acl.entries))
  {
    var line := "owner=" + acl.owner;
    assert AclLines(acl) == [line] && AclLines(acl)[..0] == [] && line[6..] == acl.owner;
  }

  lemma {:induction false} TakesEntries(acl: Acl)
    requires NamesOk(acl)
    ensures forall i :: 0 <= i < |AclLines(acl)| ==> LineOk(AclLines(acl)[i])
    ensures TakeLines(NOBODY, AclLines(acl)) == acl.(entries := Readable(acl.entries))
    decreases |acl.entries|
  {
    var n := |acl.entries|;
    if n == 0 {
      TakesOwner(acl);
    } else {
      var e := acl.entries[n - 1];
      var front := acl.(entries := acl.entries[..n - 1]);
      assert acl.entries == front.entries + [e];
      hide EntryLine, UserOk, TakeLine, AclLines;
      TakesEntries(front);
      AclLinesSnoc(front, e);
      EntryLineFacts(e);
      TakesEntry(front.(entries := Readable(front.entries)), e);
      assert Readable(front.entries) + [e.(read := true)] == Readable(acl.entries);
    }
  }

  /** The list that comes back, for every list whose names the text can carry. */
  lemma DeserializeText(acl: Acl)
    requires NamesOk(acl)
    ensures Deserialize(Unlines(AclLines(acl))) == acl.(entries := Readable(acl.entries))
  {
    TakesEntries(acl);
    LinesOfUnlines(AclLines(acl));
  }

  /** Whatever the text, the names that come out of it are ones it can carry. */
  lemma {:induction false} TakenNamesOk(lines: seq<string>)
    requires forall l :: l in lines ==> LineOk(l)
    ensures NamesOk(TakeLines(NOBODY, lines))
    ensures forall e :: e in TakeLines(NOBODY, lines).entries ==> exists l :: l in lines && e.user <= l
    decreases |lines|
  {
    if lines != [] {
      var front, line := lines[..|lines| - 1], lines[|lines| - 1];
      TakenNamesOk(front);
      TakenNameOk(TakeLines(NOBODY, front), line);
      assert forall l :: l in front ==> l in lines;
    }
  }

  lemma {:induction false} TakenOwner(lines: seq<string>, c: char)
    requires forall l :: l in lines ==> c !in l
    ensures c !in TakeLines(NOBODY, lines).owner
    decreases |lines|
  {
    if lines != [] {
      var front, line := lines[..|lines| - 1], lines[|lines| - 1];
      assert line in lines && forall l :: l in front ==> l in lines;
      TakenOwner(front, c);
      OwnerFrom(TakeLines(NOBODY, front), line, c);
    }
  }

  lemma OwnerFrom(acl: Acl, line: string, c: char)
    requires c !in acl.owner && c !in line
    ensures c !in TakeLine(acl, line).owner
  {
    assert forall x :: x in line[if |line| < 6 then 0 else 6..] ==> x in line;
  }

  lemma TakenNameOk(acl: Acl, line: string)
    requires NamesOk(acl) && LineOk(line)
    ensures NamesOk(TakeLine(acl, line))
    ensures forall e :: e in TakeLine(acl, line).entries ==> e in acl.entries || e.user <= line
  {
    var k := Strchr(line, '=');
    if !("owner=" <= line) && k < |line| {
      var user := Fit(line[..k], MAX_USERNAME);
      assert user <= line && forall c :: c in user ==> c in line && c in line[..k];
    } else {
      assert forall c :: c in line[if |line| < 6 then 0 else 6..] ==> c in line;
    }
  }

  /**
   Reading back a serialised list gives that list exactly when its names can be carried, it is
   not over-full and every entry can read.
   */
  lemma AclTextRoundTrip(acl: Acl)
    ensures Deserialize(Unlines(AclLines(acl))) == acl <==> NamesOk(acl) && forall e :: e in acl.entries ==> e.read
  {
    var back := Deserialize(Unlines(AclLines(acl)));
    TokensAreOk(Unlines(AclLines(acl)), '\n');
    TakenNamesOk(Lines(Unlines(AclLines(acl))));
    if NamesOk(acl) {
      DeserializeText(acl);
      hide Deserialize, NamesOk;
      assert Readable(acl.entries) == acl.entries <==> forall i :: 0 <= i < |acl.entries| ==> acl.entries[i].read;
    }
  }

  // ---------------------------------------------------------------- sizes

  lemma {:induction false} EntriesLength(entries: seq<AclEntry>)
    requires forall e :: e in entries ==> |e.user| <= 63
    ensures |Unlines(EntryLines(entries))| <= 67 * |entries|
    ensures (forall e :: e in entries ==> |e.user| == 63 && e.write) ==> |Unlines(EntryLines(entries))| == 67 * |entries|
  {
    if entries != [] {
      var e := entries[0];
      assert e in entries && |EntryLine(e)| == |e.user| + (if e.write then 3 else 2);
      EntriesLength(entries[1..]);
      assert EntryLines(entries)[1..] == EntryLines(entries[1..]);
      hide EntryLine, EntryLines;
      assert |Unlines(EntryLines(entries))| == |EntryLine(e)| + 1 + |Unlines(EntryLines(entries[1..]))|;
    }
  }

  /** The metadata file's buffer takes every list of up to 60 entries; a message payload, one of up to 25. */
  lemma SizesFit(acl: Acl)
    requires NamesOk(acl)
    ensures |acl.entries| <= 60 ==> Serialize(acl, 4096).Some?
    ensures |acl.entries| <= 25 ==> |Unlines(AclLines(acl))| <= 1791
  {
    UnlinesConcat(["owner=" + acl.owner], EntryLines(acl.entries));
    EntriesLength(acl.entries);
    assert Unlines(["owner=" + acl.owner]) == "owner=" + acl.owner + "\n";
  }

  /** 60 is the most: 61 writers with the longest names do not fit beside any owner of two letters. */
  lemma SixtyOneDoNotFit(acl: Acl)
    requires NamesOk(acl) && |acl.owner| >= 2 && |acl.entries| == 61
    requires forall e :: e in acl.entries ==> |e.user| == 63 && e.write
    ensures Serialize(acl, 4096) == None
  {
    UnlinesConcat(["owner=" + acl.owner], EntryLines(acl.entries));
    EntriesLength(acl.entries);
    assert Unlines(["owner=" + acl.owner]) == "owner=" + acl.owner + "\n";
  }

  // ---------------------------------------------------------------- the code

  /** acl_serialize: gives up at the first line that does not leave room for the terminator. */
  method WriteText(record: AclRecord, size: nat) returns (text: Option<string>)
    requires record.Valid()
    ensures text == Serialize(record.View(), size)
  {
    hide EntryLine;
    ghost var acl := record.View();
    var buf := "owner=" + record.owner + "\n";
    assert Unlines(["owner=" + acl.owner]) == buf;
    UnlinesConcat(["owner=" + acl.owner], EntryLines(acl.entries));
    if |buf| >= size {
      return None;
    }
    assert record.entries[..0] == [];
    for i := 0 to record.count
      invariant buf == Unlines(AclLines(acl.(entries := acl.entries[..i]))) && |buf| < size
    {
      var line := EntryLine(record.entries[i]) + "\n";
      WritesLine(acl, i, line);
      if |buf| + |line| >= size {
        return None;
      }
      buf := buf + line;
    }
    assert acl.entries[..record.count] == acl.entries;
    return Some(buf);
  }

  lemma WritesLine(acl: Acl, i: nat, line: string)
    requires i < |acl.entries| && line == EntryLine(acl.entries[i]) + "\n"
    ensures Unlines(AclLines(acl.(entries := acl.entries[..i + 1]))) == Unlines(AclLines(acl.(entries := acl.entries[..i]))) + line
    ensures |Unlines(AclLines(acl.(entries := acl.entries[..i + 1])))| <= |Unlines(AclLines(acl))|
  {
    var before, after := AclLines(acl.(entries := acl.entries[..i])), AclLines(acl.(entries := acl.entries[..i + 1]));
    assert acl.entries[..i + 1] == acl.entries[..i] + [acl.entries[i]];
    EntryLinesSnoc(acl.entries[..i], acl.entries[i]);
    assert after == before + [EntryLine(acl.entries[i])];
    UnlinesAppend(before, EntryLine(acl.entries[i]));
    EntryLinesAppend(acl.entries[..i + 1], acl.entries[i + 1..]);
    assert acl.entries[..i + 1] + acl.entries[i + 1..] == acl.entries;
    assert AclLines(acl) == after + EntryLines(acl.entries[i + 1..]);
    UnlinesConcat(after, EntryLines(acl.entries[i + 1..]));
  }

  lemma {:induction false} EntryLinesAppend(a: seq<AclEntry>, b: seq<AclEntry>)
    ensures EntryLines(a + b) == EntryLines(a) + EntryLines(b)
  {
    if a == [] {
      assert a + b == b;
    } else {
      assert (a + b)[1..] == a[1..] + b;
      EntryLinesAppend(a[1..], b);
    }
  }

  /** The body of acl_deserialize's loop. */
  method ReadLine(record: AclRecord, line: string)
    requires record.Valid()
    modifies record, record.entries
    ensures record.Valid() && record.View() == TakeLine(old(record.View()), line)
  {
    var k := Strchr(line, '=');
    if "owner=" <= line {
      record.owner := Fit(line[6..], MAX_USERNAME);
    } else if k < |line| && record.count < MAX_ACL_ENTRIES {
      var perm := line[k + 1..];
      record.entries[record.count] := AclEntry(Fit(line[..k], MAX_USERNAME), perm == "RW" || perm == "R", perm == "RW");
      record.count := record.count + 1;
      assert record.View().entries == old(record.View()).entries + [record.entries[record.count - 1]];
    }
  }

  /** acl_deserialize: wipes the record and reads the text line by line. */
  method ReadText(record: AclRecord, text: string)
    requires record.Valid()
    modifies record, record.entries
    ensures record.Valid() && record.View() == Deserialize(text)
  {
    hide TakeLine, TakeLines, Strtok, Strchr;
    record.owner, record.count := "", 0;
    ghost var done: seq<string> := [];
    var p := 0;
    assert text[0..] == text;
    StartsEmpty();
    while p < |text|
      invariant p <= |text| && record.Valid() && record.View() == TakeLines(NOBODY, done)
      invariant done + Lines(text[p..]) == Lines(text)
    {
      var k := Strchr(text[p..], '\n');
      ScansLine(text, p, k);
      if k > 0 {
        ReadLine(record, text[p..p + k]);
        TakesOneMore(done, text[p..p + k], Lines(text[p + k..]));
        done := done + [text[p..p + k]];
        p := p + k;
      } else {
        p := p + 1;
      }
    }
    assert text[p..] == "" && done + [] == done;
  }

  lemma StartsEmpty()
    ensures TakeLines(NOBODY, []) == NOBODY && Lines("") == []
  {
  }

  lemma TakesOneMore(done: seq<string>, line: string, rest: seq<string>)
    ensures TakeLines(NOBODY, done + [line]) == TakeLine(TakeLines(NOBODY, done), line)
    ensures done + ([line] + rest) == done + [line] + rest
  {
    assert (done + [line])[..|done|] == done;
  }

  lemma ScansLine(text: string, p: nat, k: nat)
    requires p < |text| && k == Strchr(text[p..], '\n')
    ensures p + k <= |text|
    ensures Lines(text[p..]) == if k > 0 then [text[p..p + k]] + Lines(text[p + k..]) else Lines(text[p + 1..])
  {
    var rest := text[p..];
    assert rest[1..] == text[p + 1..] && rest[..k] == text[p..p + k];
    if 0 < k < |rest| {
      assert text[p + k..][0] == '\n' && text[p + k..][1..] == rest[k + 1..];
    } else if k == |rest| {
      assert text[p + k..] == "";
    }
  }
}
