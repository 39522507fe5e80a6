/** The map between user ids and host names, as loaded from its file. */
module UidMap {
  import opened Wrappers
  import opened Ints
  import opened Text

  type Names = map<u8, string>

  /** The entry a line of the file makes, if it makes one: text before '#', an id, a name; the rest is ignored. */
  function LineEntry(line: string): Option<(u8, string)> {
    var text := Trim(SplitOn(line, '#')[0]);
    var parts := WordsFrom(text, "");
    if text == "" || |parts| < 2 then None
    else
      match ParseDec(parts[0], 255)
      case None => None
      case Some(uid) => Some((uid, parts[1]))
  }

  /** The names after reading the lines in order, later lines overwriting earlier ones. */
  function Loaded(lines: seq<string>): Names {
    if lines == [] then map[]
    else
      var before := Loaded(lines[..|lines| - 1]);
      match LineEntry(lines[|lines| - 1])
      case None => before
      case Some(e) => before[e.0 := e.1]
  }

  class UidMap {
    var hostnames: Names

    constructor ()
      ensures hostnames == map[]
    {
      hostnames := map[];
    }

    /** Loads the file's lines; `None` is a file that does not exist. */
    method Load(file: Option<seq<string>>)
      modifies this
      ensures hostnames == if file == None then old(hostnames) else Loaded(file.value)
      ensures file.Some? ==> forall uid, name ::
                HostOf(hostnames, uid) == Some(name) <==> exists i :: LastNaming(file.value, i, uid, name)
    {
      if file == None {
        return;
      }
      var lines := file.value;
      hostnames := map[];
      for i := 0 to |lines|
        invariant hostnames == Loaded(lines[..i])
      {
        assert lines[..i + 1][..i] == lines[..i];
        var line := Trim(SplitOn(lines[i], '#')[0]);
        if line == "" {
          continue;
        }
        var parts := WordsFrom(line, "");
        if |parts| < 2 {
          continue;
        }
        var uid := ParseDec(parts[0], 255);
        if uid == None {
          continue;
        }
        hostnames := hostnames[uid.value := parts[1]];
      }
      assert lines[..|lines|] == lines;
      forall uid, name
        ensures HostOf(hostnames, uid) == Some(name) <==> exists i :: LastNaming(lines, i, uid, name)
      {
        LoadedExactly(lines, uid, name);
      }
    }

    /** Searches in the iteration order of the hash map, which is not fixed by the map. */
    method GetUid(order: seq<u8>, name: string) returns (r: Option<u8>)
      requires Iterates(order, hostnames)
      ensures r == UidOf(hostnames, order, name)
    {
      for i := 0 to |order|
        invariant UidOf(hostnames, order, name) == UidOf(hostnames, order[i..], name)
      {
        assert order[i] in hostnames;
        if hostnames[order[i]] == name {
          return Some(order[i]);
        }
      }
      r := None;
    }
  }

  /** An iteration order of the map. */
  ghost predicate Iterates(order: seq<u8>, names: Names) {
    && (forall u :: u in order <==> u in names)
    && (forall i, j :: 0 <= i < j < |order| ==> order[i] != order[j])
  }

  /** `get_host`. */
  function HostOf(names: Names, uid: u8): Option<string> {
    if uid in names then Some(names[uid]) else None
  }

  function UidOf(names: Names, order: seq<u8>, name: string): Option<u8> {
    if order == [] then None
    else if order[0] in names && names[order[0]] == name then Some(order[0])
    else UidOf(names, order[1..], name)
  }

  /** A search finds an id with the name, and finds one if there is one. */
  lemma {:induction false} UidOfFinds(names: Names, order: seq<u8>, name: string)
    ensures var r := UidOf(names, order, name);
            && (r.Some? ==> r.value in order && r.value in names && names[r.value] == name)
            && (r.None? ==> forall u :: u in order && u in names ==> names[u] != name)
  {
    if order == [] {
    } else {
      UidOfFinds(names, order[1..], name);
      assert order == [order[0]] + order[1..];
    }
  }

  /** Looking up the name of an id gives the id back, in every iteration order, exactly when no other id has
      the name. */
  lemma NameIdentifies(names: Names, uid: u8)
    requires uid in names
    ensures (forall order :: Iterates(order, names) ==> UidOf(names, order, names[uid]) == Some(uid))
       <==> forall v :: v in names && names[v] == names[uid] ==> v == uid
  {
    if forall v :: v in names && names[v] == names[uid] ==> v == uid {
      forall order | Iterates(order, names)
        ensures UidOf(names, order, names[uid]) == Some(uid)
      {
        UidOfFinds(names, order, names[uid]);
      }
    } else {
      var v :| v in names && names[v] == names[uid] && v != uid;
      var order := SomeOrder(names, names.Keys - {v});
      assert Iterates([v] + order, names);
      assert UidOf(names, [v] + order, names[uid]) == Some(v);
    }
  }

  lemma SomeOrder(names: Names, keys: set<u8>) returns (order: seq<u8>)
    ensures forall u :: u in order <==> u in keys
    ensures forall i, j :: 0 <= i < j < |order| ==> order[i] != order[j]
  {
    if keys == {} {
      order := [];
    } else {
      var u :| u in keys;
      var rest := SomeOrder(names, keys - {u});
      order := [u] + rest;
    }
  }

  /** The `i`-th line makes the last entry for an id, and names it so. */
  ghost predicate LastEntryAt(lines: seq<string>, i: int, uid: u8, name: string) {
    && 0 <= i < |lines| && LineEntry(lines[i]) == Some((uid, name))
    && forall j :: i < j < |lines| && LineEntry(lines[j]).Some? ==> LineEntry(lines[j]).value.0 != uid
  }

  /** An id is loaded with a name exactly when the last line making an entry for the id names it so. */
  lemma {:induction false} LoadedIsLastEntry(lines: seq<string>, uid: u8, name: string)
    ensures HostOf(Loaded(lines), uid) == Some(name) <==> exists i :: LastEntryAt(lines, i, uid, name)
  {
    hide LineEntry;
    if lines == [] {
    } else {
      var n := |lines| - 1;
      var front := lines[..n];
      LoadedIsLastEntry(front, uid, name);
      assert forall i :: 0 <= i < n ==> front[i] == lines[i];
      var last := LineEntry(lines[n]);
      if last.Some? && last.value.0 == uid {
        assert HostOf(Loaded(lines), uid) == Some(last.value.1);
        assert last.value.1 == name ==> LastEntryAt(lines, n, uid, name);
      } else {
        assert HostOf(Loaded(lines), uid) == HostOf(Loaded(front), uid);
        assert forall i :: LastEntryAt(front, i, uid, name) <==> LastEntryAt(lines, i, uid, name);
      }
    }
  }

  predicate IsWord(w: string) {
    w != "" && forall c :: c in w ==> !IsSpace(c) && c != '#'
  }

  /** A line of the file, taken apart: white space, a word, white space, a word, and then nothing, or something that
      white space or a comment begins. */
  predicate LineShape(line: string, lead: string, number: string, gap: string, name: string, tail: string) {
    && line == lead + number + gap + name + tail
    && AllSpace(lead) && IsWord(number) && AllSpace(gap) && gap != "" && IsWord(name)
    && (tail == "" || IsSpace(tail[0]) || tail[0] == '#')
  }

  /** The text of a line names an id: its first word is the id's number, its second word the name. */
  ghost predicate Makes(line: string, uid: u8, name: string) {
    exists lead, number, gap, tail ::
      LineShape(line, lead, number, gap, name, tail) && ParseDec(number, 255) == Some(uid)
  }

  lemma EntryOfWords(line: string, piece: string, comment: string)
    requires line == piece + comment && '#' !in piece && (comment == "" || comment[0] == '#')
    ensures var parts := WordsFrom(piece, "");
            LineEntry(line) == if |parts| < 2 || ParseDec(parts[0], 255).None? then None
                               else Some((ParseDec(parts[0], 255).value, parts[1]))
  {
    FirstPieceIs(piece, comment, '#');
    WordsOfTrimmed(piece);
  }

  lemma LineEntryOf(
      line: string, lead: string, number: string, gap: string, name: string, tail: string)
    requires LineShape(line, lead, number, gap, name, tail)
    ensures LineEntry(line)
         == if ParseDec(number, 255).None? then None else Some((ParseDec(number, 255).value, name))
  {
    hide LineEntry, ParseDec;
    var rest, comment := CutAt(tail, '#');
    var piece := lead + number + gap + name + rest;
    assert line == piece + comment;
    WordsFirst(gap, name, rest);
    assert piece == lead + number + (gap + name + rest);
    assert (gap + name + rest)[0] == gap[0];
    WordsFirst(lead, number, gap + name + rest);
    EntryOfWords(line, piece, comment);
  }

  /** The parts of a line that makes an entry. */
  lemma PartsOfEntry(line: string)
    returns (lead: string, number: string, gap: string, name: string, tail: string)
    requires LineEntry(line).Some?
    ensures LineShape(line, lead, number, gap, name, tail)
  {
    hide LineEntry, ParseDec, WordsFrom;
    var piece, comment := CutAt(line, '#');
    EntryOfWords(line, piece, comment);
    if AllSpace(piece) {
      WordsNone(piece);
    }
    var rest;
    lead, number, rest := FirstWordOf(piece);
    WordsFirst(lead, number, rest);
    if AllSpace(rest) {
      WordsNone(rest);
    }
    var more;
    gap, name, more := FirstWordOf(rest);
    tail := more + comment;
    assert name[0] in name;
    assert piece == lead + number + gap + name + more;
    assert line == lead + number + gap + name + tail;
  }

  /** A line makes an entry exactly when its text says so. */
  lemma LineEntryExact(line: string, uid: u8, name: string)
    ensures LineEntry(line) == Some((uid, name)) <==> Makes(line, uid, name)
  {
    hide LineEntry, ParseDec, LineShape;
    if LineEntry(line) == Some((uid, name)) {
      var lead, number, gap, name', tail := PartsOfEntry(line);
      LineEntryOf(line, lead, number, gap, name', tail);
    }
    if Makes(line, uid, name) {
      var lead, number, gap, tail :|
        LineShape(line, lead, number, gap, name, tail) && ParseDec(number, 255) == Some(uid);
      LineEntryOf(line, lead, number, gap, name, tail);
    }
  }

  /** The `i`-th line names an id so, and no later line names it at all. */
  ghost predicate LastNaming(lines: seq<string>, i: int, uid: u8, name: string) {
    && 0 <= i < |lines| && Makes(lines[i], uid, name)
    && forall j, other :: i < j < |lines| ==> !Makes(lines[j], uid, other)
  }

  /** An id is loaded with a name exactly when the last line whose text names the id names it so. */
  lemma LoadedExactly(lines: seq<string>, uid: u8, name: string)
    ensures HostOf(Loaded(lines), uid) == Some(name) <==> exists i :: LastNaming(lines, i, uid, name)
  {
    hide LineEntry, Loaded, Makes;
    LoadedIsLastEntry(lines, uid, name);
    forall line, other
      ensures LineEntry(line) == Some((uid, other)) <==> Makes(line, uid, other)
    {
      LineEntryExact(line, uid, other);
    }
    forall i
      ensures LastEntryAt(lines, i, uid, name) <==> LastNaming(lines, i, uid, name)
    {
      if LastNaming(lines, i, uid, name) {
        forall j | i < j < |lines| && LineEntry(lines[j]).Some?
          ensures LineEntry(lines[j]).value.0 != uid
        {
          var e := LineEntry(lines[j]).value;
          assert LineEntry(lines[j]) == Some((e.0, e.1));
          assert !Makes(lines[j], uid, e.1);
        }
      }
    }
  }

  lemma PrintedIsWord(n: nat)
    ensures IsWord(PrintDec(n))
  {
    hide PrintDec;
    PrintDecValue(n);
  }

  /** A printed id and a name make the entry they say, whatever white space or comment follows. */
  lemma PlainLineMakes(uid: u8, name: string, tail: string)
    requires IsWord(name) && (tail == "" || IsSpace(tail[0]) || tail[0] == '#')
    ensures LineEntry(PrintDec(uid) + " " + name + tail) == Some((uid, name))
  {
    hide PrintDec, ParseDec, LineEntry, IsWord;
    var number := PrintDec(uid);
    DecRoundTrip(uid, 255);
    PrintedIsWord(uid);
    assert number + " " + name + tail == "" + number + " " + name + tail;
    LineEntryOf(number + " " + name + tail, "", number, " ", name, tail);
  }

  lemma EntryNameClean(line: string)
    requires LineEntry(line).Some?
    ensures var name := LineEntry(line).value.1;
            name != "" && forall c :: c in name ==> !IsSpace(c) && c != '#'
  {
    var piece := SplitOn(line, '#')[0];
    FirstPieceHasNoSeparator(line, '#');
    TrimStartChars(piece);
    TrimEndChars(TrimStart(piece));
    WordsFromClean(Trim(piece), "");
    assert WordsFrom(Trim(piece), "")[1] in WordsFrom(Trim(piece), "");
    assert "" + Trim(piece) == Trim(piece);
  }

  /** Every loaded name is a single word without '#', whatever the file holds. */
  lemma {:induction false} LoadedNamesAreWords(lines: seq<string>, uid: u8)
    requires uid in Loaded(lines)
    ensures Loaded(lines)[uid] != "" && forall c :: c in Loaded(lines)[uid] ==> !IsSpace(c) && c != '#'
  {
    if lines == [] {
    } else {
      var last := LineEntry(lines[|lines| - 1]);
      if last.Some? && last.value.0 == uid {
        EntryNameClean(lines[|lines| - 1]);
      } else {
        LoadedNamesAreWords(lines[..|lines| - 1], uid);
      }
    }
  }
}
