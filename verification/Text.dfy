/** Text as the programs handle it. A string is its UTF-8 bytes, one character per byte. */
module Text {
  import opened Wrappers

  predicate IsSpace(c: char) {
    c == ' ' || '\t' <= c <= '\r'
  }

  function TrimStart(s: string): string {
    if s != "" && IsSpace(s[0]) then TrimStart(s[1..]) else s
  }

  function TrimEnd(s: string): string {
    if s != "" && IsSpace(s[|s| - 1]) then TrimEnd(s[..|s| - 1]) else s
  }

  function Trim(s: string): string {
    TrimEnd(TrimStart(s))
  }

  /** The pieces between separators, as `split` gives them; never none. */
  function SplitOn(s: string, sep: char): (r: seq<string>)
    ensures r != []
  {
    if s == "" then [""]
    else
      var rest := SplitOn(s[1..], sep);
      if s[0] == sep then [""] + rest else [[s[0]] + rest[0]] + rest[1..]
  }

  /** `split_whitespace`: `word` is the word read so far. */
  function WordsFrom(s: string, word: string): seq<string> {
    if s == "" then (if word == "" then [] else [word])
    else if IsSpace(s[0]) then (if word == "" then [] else [word]) + WordsFrom(s[1..], "")
    else WordsFrom(s[1..], word + [s[0]])
  }

  /** Words joined by single spaces. */
  function Join(ws: seq<string>): string {
    if ws == [] then ""
    else if |ws| == 1 then ws[0]
    else ws[0] + " " + Join(ws[1..])
  }

  lemma {:induction false} SplitNothing(s: string, sep: char)
    requires sep !in s
    ensures SplitOn(s, sep) == [s]
  {
    if s == "" {
    } else {
      SplitNothing(s[1..], sep);
      assert s == [s[0]] + s[1..];
    }
  }

  /** The first piece is what stands before the first separator. */
  lemma FirstPieceIs(p: string, rest: string, sep: char)
    requires sep !in p && (rest == "" || rest[0] == sep)
    ensures SplitOn(p + rest, sep)[0] == p
  {
    if rest == "" {
      SplitNothing(p, sep);
      assert p + rest == p;
    } else {
      SplitFirst(p, rest[1..], sep);
      assert p + rest == p + [sep] + rest[1..];
    }
  }

  lemma {:induction false} CutAt(s: string, sep: char) returns (p: string, rest: string)
    ensures s == p + rest && sep !in p && (rest == "" || rest[0] == sep)
  {
    if s == "" || s[0] == sep {
      p, rest := "", s;
    } else {
      p, rest := CutAt(s[1..], sep);
      p := [s[0]] + p;
      assert s == [s[0]] + s[1..];
    }
  }

  /** Pieces with a separator between each two. */
  function JoinWith(ps: seq<string>, sep: char): string {
    if ps == [] then "" else if |ps| == 1 then ps[0] else ps[0] + [sep] + JoinWith(ps[1..], sep)
  }

  lemma {:induction false} SplitJoins(s: string, sep: char)
    ensures JoinWith(SplitOn(s, sep), sep) == s
    ensures forall p :: p in SplitOn(s, sep) ==> sep !in p
  {
    if s == "" {
    } else {
      var rest := SplitOn(s[1..], sep);
      SplitJoins(s[1..], sep);
      if s[0] == sep {
        assert ([""] + rest)[1..] == rest;
        assert s == "" + [sep] + JoinWith(rest, sep);
      } else {
        var ps := [[s[0]] + rest[0]] + rest[1..];
        assert ps[1..] == rest[1..] && rest[0] in rest;
        JoinHead(rest, s[0], sep);
        assert s == [s[0]] + s[1..];
      }
    }
  }

  lemma JoinHead(ps: seq<string>, c: char, sep: char)
    requires ps != []
    ensures JoinWith([[c] + ps[0]] + ps[1..], sep) == [c] + JoinWith(ps, sep)
  {
    var qs := [[c] + ps[0]] + ps[1..];
    assert qs[1..] == ps[1..];
    if |ps| > 1 {
      assert [c] + ps[0] + [sep] + JoinWith(ps[1..], sep) == [c] + (ps[0] + [sep] + JoinWith(ps[1..], sep));
    }
  }

  lemma {:induction false} SplitFirst(p: string, rest: string, sep: char)
    requires sep !in p
    ensures SplitOn(p + [sep] + rest, sep) == [p] + SplitOn(rest, sep)
  {
    var s := p + [sep] + rest;
    if p == "" {
      assert s[1..] == rest;
    } else {
      assert s[1..] == p[1..] + [sep] + rest && s[0] == p[0];
      SplitFirst(p[1..], rest, sep);
      assert p == [p[0]] + p[1..];
    }
  }

  lemma {:induction false} JoinSplits(ps: seq<string>, sep: char)
    requires ps != [] && forall p :: p in ps ==> sep !in p
    ensures SplitOn(JoinWith(ps, sep), sep) == ps
  {
    if |ps| == 1 {
      SplitNothing(ps[0], sep);
    } else {
      JoinSplits(ps[1..], sep);
      SplitFirst(ps[0], JoinWith(ps[1..], sep), sep);
      assert ps == [ps[0]] + ps[1..];
    }
  }

  /** Splitting gives the one list of pieces that hold no separator and give the text back with separators between. */
  lemma SplitExact(s: string, sep: char, ps: seq<string>)
    ensures SplitOn(s, sep) == ps <==> ps != [] && (forall p :: p in ps ==> sep !in p) && JoinWith(ps, sep) == s
  {
    SplitJoins(s, sep);
    if ps != [] && (forall p :: p in ps ==> sep !in p) && JoinWith(ps, sep) == s {
      JoinSplits(ps, sep);
    }
  }

  lemma {:induction false} FirstPieceHasNoSeparator(s: string, sep: char)
    ensures sep !in SplitOn(s, sep)[0]
  {
    if s == "" {
    } else {
      FirstPieceHasNoSeparator(s[1..], sep);
    }
  }

  lemma {:induction false} TrimStartChars(s: string)
    ensures forall c :: c in TrimStart(s) ==> c in s
  {
    if s != "" && IsSpace(s[0]) {
      TrimStartChars(s[1..]);
    }
  }

  lemma {:induction false} TrimEndChars(s: string)
    ensures forall c :: c in TrimEnd(s) ==> c in s
  {
    if s != "" && IsSpace(s[|s| - 1]) {
      TrimEndChars(s[..|s| - 1]);
    }
  }

  lemma {:induction false} WordsFromClean(s: string, word: string)
    requires forall c :: c in word ==> !IsSpace(c)
    ensures forall w :: w in WordsFrom(s, word) ==>
              w != "" && forall c :: c in w ==> !IsSpace(c) && c in word + s
  {
    if s == "" {
    } else {
      if IsSpace(s[0]) {
        WordsFromClean(s[1..], "");
      } else {
        WordsFromClean(s[1..], word + [s[0]]);
        assert word + [s[0]] + s[1..] == word + s;
      }
    }
  }

  lemma TrimNothing(s: string)
    requires s == "" || (!IsSpace(s[0]) && !IsSpace(s[|s| - 1]))
    ensures Trim(s) == s
  {
  }

  predicate AllSpace(s: string) {
    forall i :: 0 <= i < |s| ==> IsSpace(s[i])
  }

  /** No white space at either end. */
  predicate Tight(s: string) {
    s == "" || (!IsSpace(s[0]) && !IsSpace(s[|s| - 1]))
  }

  lemma {:induction false} TrimStartDrops(before: string, s: string)
    requires AllSpace(before) && (s == "" || !IsSpace(s[0]))
    ensures TrimStart(before + s) == s
  {
    if before == "" {
      assert before + s == s;
    } else {
      assert (before + s)[1..] == before[1..] + s;
      TrimStartDrops(before[1..], s);
    }
  }

  lemma {:induction false} TrimEndDrops(s: string, behind: string)
    requires AllSpace(behind) && (s == "" || !IsSpace(s[|s| - 1]))
    ensures TrimEnd(s + behind) == s
  {
    if behind == "" {
      assert s + behind == s;
    } else {
      var n := |behind| - 1;
      assert (s + behind)[..|s + behind| - 1] == s + behind[..n];
      TrimEndDrops(s, behind[..n]);
    }
  }

  /** Trimming takes the white space before and behind, and nothing else. */
  lemma TrimDrops(before: string, s: string, behind: string)
    requires AllSpace(before) && Tight(s) && AllSpace(behind)
    ensures Trim(before + s + behind) == s
  {
    if s == "" {
      var all := before + behind;
      assert before + s + behind == all + "";
      TrimStartDrops(all, "");
    } else {
      assert before + s + behind == before + (s + behind);
      TrimStartDrops(before, s + behind);
      TrimEndDrops(s, behind);
    }
  }

  /** White space before the text makes no word. */
  lemma {:induction false} WordsSkip(before: string, s: string)
    requires AllSpace(before)
    ensures WordsFrom(before + s, "") == WordsFrom(s, "")
  {
    if before == "" {
      assert before + s == s;
    } else {
      assert (before + s)[1..] == before[1..] + s;
      WordsSkip(before[1..], s);
    }
  }

  /** The word that was begun goes on to the next white space, or to the end. */
  lemma {:induction false} WordsTake(begun: string, w: string, rest: string)
    requires begun + w != "" && (forall c :: c in w ==> !IsSpace(c)) && (rest == "" || IsSpace(rest[0]))
    ensures WordsFrom(w + rest, begun) == [begun + w] + WordsFrom(rest, "")
    decreases |w|
  {
    if w == "" {
      assert w + rest == rest && begun + w == begun;
      if rest == "" {
        assert [begun] + [] == [begun];
      }
    } else {
      assert (w + rest)[1..] == w[1..] + rest && (w + rest)[0] == w[0];
      WordsTake(begun + [w[0]], w[1..], rest);
      assert begun + [w[0]] + w[1..] == begun + w;
    }
  }

  /** The first word of a text, and the words behind it. */
  lemma WordsFirst(before: string, w: string, rest: string)
    requires AllSpace(before) && w != "" && (forall c :: c in w ==> !IsSpace(c)) && (rest == "" || IsSpace(rest[0]))
    ensures WordsFrom(before + w + rest, "") == [w] + WordsFrom(rest, "")
  {
    assert before + w + rest == before + (w + rest);
    WordsSkip(before, w + rest);
    WordsTake("", w, rest);
    assert "" + w == w;
  }

  /** A text with words begins with white space, its first word, and the rest. */
  lemma {:induction false} FirstWordOf(s: string) returns (before: string, w: string, rest: string)
    requires !AllSpace(s)
    ensures s == before + w + rest && AllSpace(before)
    ensures w != "" && (forall c :: c in w ==> !IsSpace(c)) && (rest == "" || IsSpace(rest[0]))
  {
    if IsSpace(s[0]) {
      assert !AllSpace(s[1..]);
      before, w, rest := FirstWordOf(s[1..]);
      before := [s[0]] + before;
      assert s == [s[0]] + s[1..];
    } else {
      before := "";
      w, rest := UpToSpace(s);
    }
  }

  lemma {:induction false} UpToSpace(s: string) returns (w: string, rest: string)
    ensures s == w + rest && (forall c :: c in w ==> !IsSpace(c)) && (rest == "" || IsSpace(rest[0]))
    ensures s != "" && !IsSpace(s[0]) ==> w != ""
  {
    if s == "" || IsSpace(s[0]) {
      w, rest := "", s;
    } else {
      w, rest := UpToSpace(s[1..]);
      w := [s[0]] + w;
      assert s == [s[0]] + s[1..];
    }
  }

  lemma {:induction false} WordsBehind(s: string, word: string, behind: string)
    requires AllSpace(behind)
    ensures WordsFrom(s + behind, word) == WordsFrom(s, word)
    decreases |s|
  {
    if s == "" {
      assert s + behind == behind;
      if behind != "" {
        WordsNone(behind[1..]);
      }
    } else {
      assert (s + behind)[1..] == s[1..] + behind;
      WordsBehind(s[1..], if IsSpace(s[0]) then "" else word + [s[0]], behind);
    }
  }

  lemma {:induction false} TrimStartSplits(s: string) returns (before: string)
    ensures s == before + TrimStart(s) && AllSpace(before)
  {
    if s != "" && IsSpace(s[0]) {
      before := TrimStartSplits(s[1..]);
      before := [s[0]] + before;
      assert s == [s[0]] + s[1..];
    } else {
      before := "";
    }
  }

  lemma {:induction false} TrimEndSplits(s: string) returns (behind: string)
    ensures s == TrimEnd(s) + behind && AllSpace(behind)
  {
    if s != "" && IsSpace(s[|s| - 1]) {
      behind := TrimEndSplits(s[..|s| - 1]);
      behind := behind + [s[|s| - 1]];
      assert s == s[..|s| - 1] + [s[|s| - 1]];
    } else {
      behind := "";
    }
  }

  /** Trimming leaves the words as they are. */
  lemma WordsOfTrimmed(s: string)
    ensures WordsFrom(Trim(s), "") == WordsFrom(s, "")
  {
    var before := TrimStartSplits(s);
    var behind := TrimEndSplits(TrimStart(s));
    WordsSkip(before, TrimStart(s));
    WordsBehind(Trim(s), "", behind);
  }

  lemma WordsNone(s: string)
    requires AllSpace(s)
    ensures WordsFrom(s, "") == []
  {
    assert s + "" == s;
    WordsSkip(s, "");
  }

  lemma {:induction false} JoinConcat(ws: seq<string>, more: seq<string>)
    requires ws != [] && more != []
    ensures Join(ws + more) == Join(ws) + " " + Join(more)
  {
    if |ws| == 1 {
      assert (ws + more)[1..] == more;
    } else {
      JoinConcat(ws[1..], more);
      assert (ws + more)[1..] == ws[1..] + more;
    }
  }

  // ---- Decimal numbers ----

  predicate IsDigit(c: char) {
    '0' <= c <= '9'
  }

  function Digit(d: nat): char
    requires d < 10
  {
    '0' + d as char
  }

  function PrintDec(n: nat): (s: string)
    ensures s != ""
  {
    if n < 10 then [Digit(n)] else PrintDec(n / 10) + [Digit(n % 10)]
  }

  /** The value of a digit string. */
  function DecValue(s: string): Option<nat> {
    if s == "" then Some(0)
    else
      match DecValue(s[..|s| - 1])
      case None => None
      case Some(v) => if IsDigit(s[|s| - 1]) then Some(10 * v + (s[|s| - 1] - '0') as nat) else None
  }

  /** `parse` of an unsigned integer up to `max`: an optional '+', then one or more digits. */
  function ParseDec(s: string, max: nat): Option<nat> {
    var digits := if s != "" && s[0] == '+' then s[1..] else s;
    if digits == "" then None
    else
      match DecValue(digits)
      case None => None
      case Some(v) => if v <= max then Some(v) else None
  }

  lemma {:induction false} PrintDecValue(n: nat)
    ensures DecValue(PrintDec(n)) == Some(n)
    ensures forall i :: 0 <= i < |PrintDec(n)| ==> IsDigit(PrintDec(n)[i])
  {
    if n < 10 {
      assert PrintDec(n)[..0] == "";
    } else {
      PrintDecValue(n / 10);
      assert PrintDec(n)[..|PrintDec(n)| - 1] == PrintDec(n / 10);
    }
  }

  /** Printing an integer and parsing it back gives the integer. */
  lemma DecRoundTrip(n: nat, max: nat)
    requires n <= max
    ensures ParseDec(PrintDec(n), max) == Some(n)
  {
    PrintDecValue(n);
  }

  predicate AllDigits(s: string) {
    forall i :: 0 <= i < |s| ==> IsDigit(s[i])
  }

  /** The digits read from the front, `n` being what stands before them. */
  function ReadDigits(n: nat, s: string): nat
    requires AllDigits(s)
    decreases |s|
  {
    if s == "" then n else ReadDigits(10 * n + (s[0] - '0') as nat, s[1..])
  }

  lemma {:induction false} ReadDigitsLast(n: nat, s: string)
    requires s != "" && AllDigits(s)
    ensures ReadDigits(n, s) == 10 * ReadDigits(n, s[..|s| - 1]) + (s[|s| - 1] - '0') as nat
    decreases |s|
  {
    if |s| > 1 {
      var m := 10 * n + (s[0] - '0') as nat;
      ReadDigitsLast(m, s[1..]);
      assert s[1..][..|s| - 2] == s[..|s| - 1][1..];
    }
  }

  /** Exactly the texts of digits have a value: the digits read from the front. */
  lemma {:induction false} DecValueExact(s: string)
    ensures DecValue(s) == if AllDigits(s) then Some(ReadDigits(0, s)) else None
  {
    if s != "" {
      var front := s[..|s| - 1];
      DecValueExact(front);
      if AllDigits(s) {
        ReadDigitsLast(0, s);
      } else if AllDigits(front) {
        assert forall i :: 0 <= i < |front| ==> s[i] == front[i];
      }
    }
  }

  /** Exactly the texts of one or more digits, an optional '+' before them, that stay within `max` are numbers. */
  lemma ParseDecExact(s: string, max: nat)
    ensures ParseDec(s, max).Some?
       <==> var digits := if "+" <= s then s[1..] else s;
            digits != "" && AllDigits(digits) && ReadDigits(0, digits) <= max
    ensures ParseDec(s, max).Some? ==>
              ParseDec(s, max).value == ReadDigits(0, if "+" <= s then s[1..] else s)
  {
    hide DecValue, ReadDigits, AllDigits;
    DecValueExact(if "+" <= s then s[1..] else s);
  }

  // ---- Hexadecimal digits ----

  function HexDigit(d: nat): char
    requires d < 16
  {
    if d < 10 then '0' + d as char else 'a' + (d - 10) as char
  }

  function HexValue(c: char): Option<nat> {
    if '0' <= c <= '9' then Some((c - '0') as nat)
    else if 'a' <= c <= 'f' then Some((c - 'a') as nat + 10)
    else if 'A' <= c <= 'F' then Some((c - 'A') as nat + 10)
    else None
  }

  /** The digits in order, and the values they are read with. */
  lemma HexDigitsAre(d: nat, c: char)
    requires d < 16
    ensures HexDigit(d) == "0123456789abcdef"[d]
    ensures HexValue(c) == Some(d) <==> c == "0123456789abcdef"[d] || c == "0123456789ABCDEF"[d]
  {
  }

  function LowerChar(c: char): char {
    if 'A' <= c <= 'Z' then 'a' + (c - 'A') else c
  }

  function Lower(s: string): string {
    seq(|s|, i requires 0 <= i < |s| => LowerChar(s[i]))
  }

  predicate IsAscii(s: string) {
    forall c :: c in s ==> c < 128 as char
  }

  /** Characters no shell quoting rule treats specially. */
  predicate SafeChar(c: char) {
    'a' <= c <= 'z' || 'A' <= c <= 'Z' || IsDigit(c) || c in "_-.:/@%+,="
  }

  predicate SafeWord(w: string) {
    w != "" && forall c :: c in w ==> SafeChar(c)
  }

  lemma PrintDecSafe(n: nat)
    ensures SafeWord(PrintDec(n))
  {
    PrintDecValue(n);
  }

  lemma SafeWordEnds(w: string)
    requires SafeWord(w)
    ensures w != "" && !IsSpace(w[|w| - 1]) && ';' !in w
  {
    assert w[|w| - 1] in w;
  }

  /** What holds of a word and of a line holds of the two with a space between. */
  lemma SpacedSafe(w: string, rest: string)
    requires w != "" && ';' !in w && rest != "" && ';' !in rest && !IsSpace(rest[|rest| - 1])
    ensures var s := w + " " + rest; s != "" && s[0] == w[0] && ';' !in s && !IsSpace(s[|s| - 1])
  {
    hide IsSpace;
    var s := w + " " + rest;
    assert s[|s| - 1] == rest[|rest| - 1];
  }

  /** A joined line of safe words has no separator, comment mark or surrounding space. */
  lemma {:induction false} JoinSafe(ws: seq<string>)
    requires ws != [] && ws[0] != "" && forall w :: w in ws ==> SafeWord(w)
    ensures Join(ws) != "" && Join(ws)[0] == ws[0][0]
    ensures !IsSpace(Join(ws)[|Join(ws)| - 1])
    ensures ';' !in Join(ws)
  {
    hide SafeWord, IsSpace;
    SafeWordEnds(ws[0]);
    if |ws| == 1 {
    } else {
      SafeWordEnds(ws[1]);
      JoinSafe(ws[1..]);
      SpacedSafe(ws[0], Join(ws[1..]));
    }
  }
}
