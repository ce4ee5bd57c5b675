/** Printing and parsing of peer, session and message IDs. */
module Ident {
  import opened Attributes

  type Uint64 = n: nat | n <= 0xFFFF_FFFF_FFFF_FFFF

  type Uint16 = n: nat | n <= 0xFFFF

  datatype PeerID = PeerID(clock: Uint64, rand: Uint16)

  datatype SessionID = SessionID(peer: PeerID, num: Revision)

  datatype Ref = Ref(id: SessionID, rev: Revision)

  datatype MessageID = MessageID(ref: Ref, num: Revision)

  predicate ValidPeer(id: PeerID) {
    id.clock != 0 && id.rand != 0
  }

  predicate ValidSession(id: SessionID) {
    ValidPeer(id.peer)
  }

  predicate ValidMessage(id: MessageID) {
    ValidSession(id.ref.id) && id.num != 0
  }

  // ---- Printing ----

  datatype Base = Decimal | Hex {
    function Radix(): nat {
      if Decimal? then 10 else 16
    }

    function Quotient(n: nat): (q: nat)
      ensures n >= Radix() ==> q < n
    {
      if Decimal? then n / 10 else n / 16
    }

    function Remainder(n: nat): (r: nat)
      ensures r < Radix()
    {
      if Decimal? then n % 10 else n % 16
    }

    function Append(n: nat, d: nat): nat {
      if Decimal? then n * 10 + d else n * 16 + d
    }
  }

  // %X prints upper-case digits.
  function Digit(d: nat): char
    requires d < 16
  {
    "0123456789ABCDEF"[d]
  }

  function Print(n: nat, base: Base): string {
    if n < base.Radix() then [Digit(n)] else Print(base.Quotient(n), base) + [Digit(base.Remainder(n))]
  }

  // The zero padding of %04X.
  function Pad4(s: string): string
    decreases 4 - |s|
  {
    if |s| < 4 then Pad4("0" + s) else s
  }

  function PrintPeer(id: PeerID): string {
    Print(id.clock, Hex) + "-" + Pad4(Print(id.rand, Hex))
  }

  function PrintSession(id: SessionID): string {
    PrintPeer(id.peer) + "." + Print(id.num, Decimal)
  }

  function PrintRef(ref: Ref): string {
    PrintSession(ref.id) + "@" + Print(ref.rev, Decimal)
  }

  function PrintMessage(id: MessageID): string {
    PrintRef(id.ref) + "#" + Print(id.num, Decimal)
  }

  // ---- Parsing ----

  // strconv.ParseUint accepts either case.
  function DigitValue(c: char): Option<nat> {
    if '0' <= c <= '9' then Some(c as nat - '0' as nat)
    else if 'a' <= c <= 'f' then Some(c as nat - 'a' as nat + 10)
    else if 'A' <= c <= 'F' then Some(c as nat - 'A' as nat + 10)
    else None
  }

  function ParseDigits(s: string, base: Base): Option<nat> {
    if |s| == 0 then Some(0)
    else
      match (ParseDigits(s[..|s| - 1], base), DigitValue(s[|s| - 1]))
      case (Some(n), Some(d)) => if d < base.Radix() then Some(base.Append(n, d)) else None
      case _ => None
  }

  // An empty string, a foreign digit and a value out of range are errors.
  function ParseUint(s: string, base: Base, max: nat): Option<nat> {
    if |s| == 0 then None
    else
      match ParseDigits(s, base)
      case None => None
      case Some(n) => if n <= max then Some(n) else None
  }

  predicate OneLine(s: string) {
    '\n' !in s
  }

  // The unanchored last group takes what is left of the line.
  function Line(s: string): string {
    if |s| == 0 || s[0] == '\n' then "" else [s[0]] + Line(s[1..])
  }

  // Matching ^(.+)a(.+)b...(.+) with separators a, b, ...: each group takes as
  // much as it can, and `anchored` tells whether the pattern ends in $.
  function Match(s: string, seps: seq<char>, anchored: bool): Option<seq<string>>
    decreases |seps|, |s| + 1
  {
    if |seps| == 0 then
      if anchored then (if |s| > 0 && OneLine(s) then Some([s]) else None)
      else (if |Line(s)| > 0 then Some([Line(s)]) else None)
    else MatchBefore(s, seps, anchored, |s|)
  }

  // The match whose first group is the longest one shorter than n.
  function MatchBefore(s: string, seps: seq<char>, anchored: bool, n: nat): Option<seq<string>>
    requires |seps| > 0 && n <= |s|
    decreases |seps|, n
  {
    if n < 2 then None
    else
      var i := n - 1;
      if s[i] == seps[0] && OneLine(s[..i]) && Match(s[i + 1..], seps[1..], anchored).Some? then
        Some([s[..i]] + Match(s[i + 1..], seps[1..], anchored).value)
      else MatchBefore(s, seps, anchored, i)
  }

  // The fields of an ID, each read with its own base and width.
  function ReadSession(groups: seq<string>): Option<SessionID>
    requires |groups| >= 3
  {
    match (ParseUint(groups[0], Hex, 0xFFFF_FFFF_FFFF_FFFF), ParseUint(groups[1], Hex, 0xFFFF), ParseUint(groups[2], Decimal, MAX_UINT32))
    case (Some(clock), Some(rand), Some(num)) => Some(SessionID(PeerID(clock, rand), num))
    case _ => None
  }

  function ReadMessage(groups: seq<string>): Option<MessageID>
    requires |groups| == 5
  {
    match (ReadSession(groups), ParseUint(groups[3], Decimal, MAX_UINT32), ParseUint(groups[4], Decimal, MAX_UINT32))
    case (Some(id), Some(rev), Some(num)) => Some(MessageID(Ref(id, rev), num))
    case _ => None
  }

  const SESSION_SEPARATORS := ['-', '.']
  const MESSAGE_SEPARATORS := ['-', '.', '@', '#']

  lemma {:induction false} MatchSize(s: string, seps: seq<char>, anchored: bool)
    requires Match(s, seps, anchored).Some?
    ensures |Match(s, seps, anchored).value| == |seps| + 1
    decreases |seps|, |s| + 1
  {
    if |seps| > 0 {
      MatchBeforeSize(s, seps, anchored, |s|);
    }
  }

  lemma {:induction false} MatchBeforeSize(s: string, seps: seq<char>, anchored: bool, n: nat)
    requires |seps| > 0 && n <= |s|
    requires MatchBefore(s, seps, anchored, n).Some?
    ensures |MatchBefore(s, seps, anchored, n).value| == |seps| + 1
    decreases |seps|, n
  {
    var i := n - 1;
    if s[i] == seps[0] && OneLine(s[..i]) && Match(s[i + 1..], seps[1..], anchored).Some? {
      MatchSize(s[i + 1..], seps[1..], anchored);
    } else {
      MatchBeforeSize(s, seps, anchored, i);
    }
  }

  // Without a match all fields stay zero, which is not a valid ID.
  function ParseMessageID(s: string): Option<MessageID> {
    match Match(s, MESSAGE_SEPARATORS, true)
    case None => None
    case Some(groups) =>
      MatchSize(s, MESSAGE_SEPARATORS, true);
      match ReadMessage(groups)
      case None => None
      case Some(id) => if ValidMessage(id) then Some(id) else None
  }

  function ParseSessionID(s: string): Option<SessionID> {
    match Match(s, SESSION_SEPARATORS, false)
    case None => None
    case Some(groups) =>
      MatchSize(s, SESSION_SEPARATORS, false);
      match ReadSession(groups)
      case None => None
      case Some(id) => if ValidSession(id) then Some(id) else None
  }

  // ---- Printed numbers ----

  lemma {:induction false} PadMakesFour(s: string)
    ensures |Pad4(s)| == (if |s| < 4 then 4 else |s|)
    ensures Pad4(s)[|Pad4(s)| - |s|..] == s
    ensures forall i | 0 <= i < |Pad4(s)| - |s| :: Pad4(s)[i] == '0'
    decreases 4 - |s|
  {
    if |s| < 4 {
      PadMakesFour("0" + s);
      assert Pad4(s)[|Pad4(s)| - |s|..] == Pad4(s)[|Pad4(s)| - |s| - 1..][1..];
    }
  }

  // Numbers are printed without leading zeros.
  lemma {:induction false} NoLeadingZero(n: nat, base: Base)
    ensures |Print(n, base)| > 0
    ensures Print(n, base)[0] == '0' <==> n == 0
  {
    if n >= base.Radix() {
      NoLeadingZero(base.Quotient(n), base);
    }
  }

  // The lower-case form of a digit.
  function Lower(c: char): char {
    if 'A' <= c <= 'F' then "abcdef"[c as nat - 'A' as nat] else c
  }

  // Hexadecimal digits are read in either case.
  lemma {:induction false} CaseDoesNotMatter(s: string, base: Base)
    ensures ParseDigits(seq(|s|, i requires 0 <= i < |s| => Lower(s[i])), base) == ParseDigits(s, base)
  {
    if |s| > 0 {
      var m := |s| - 1;
      var lower := seq(|s|, i requires 0 <= i < |s| => Lower(s[i]));
      CaseDoesNotMatter(s[..m], base);
      assert lower[..m] == seq(m, i requires 0 <= i < m => Lower(s[..m][i]));
      assert DigitValue(lower[m]) == DigitValue(s[m]);
    }
  }

  // Hexadecimal digits only: none of the separators, and no line break.
  predicate IsNumeral(s: string) {
    |s| > 0 && forall c | c in s :: '0' <= c <= '9' || 'A' <= c <= 'F'
  }

  lemma DigitRoundTrip(d: nat)
    requires d < 16
    ensures DigitValue(Digit(d)) == Some(d)
    ensures '0' <= Digit(d) <= '9' || 'A' <= Digit(d) <= 'F'
  {
  }

  lemma {:induction false} PrintRoundTrip(n: nat, base: Base)
    ensures IsNumeral(Print(n, base)) && ParseDigits(Print(n, base), base) == Some(n)
  {
    if n >= base.Radix() {
      PrintRoundTrip(base.Quotient(n), base);
      AppendDigit(Print(base.Quotient(n), base), base.Quotient(n), base.Remainder(n), base);
      DigitRoundTrip(base.Remainder(n));
    } else {
      AppendDigit("", 0, n, base);
      DigitRoundTrip(n);
      assert "" + [Digit(n)] == Print(n, base);
    }
  }

  lemma AppendDigit(s: string, n: nat, d: nat, base: Base)
    requires d < base.Radix() && ParseDigits(s, base) == Some(n)
    ensures ParseDigits(s + [Digit(d)], base) == Some(base.Append(n, d))
  {
    DigitRoundTrip(d);
    assert (s + [Digit(d)])[..|s|] == s;
  }

  lemma {:induction false} LeadingZero(s: string, base: Base)
    ensures ParseDigits("0" + s, base) == ParseDigits(s, base)
  {
    if |s| > 0 {
      LeadingZero(s[..|s| - 1], base);
      assert ("0" + s)[..|s|] == "0" + s[..|s| - 1];
    } else {
      assert ("0" + s)[..0] == [];
    }
  }

  lemma {:induction false} PadRoundTrip(s: string, base: Base)
    requires IsNumeral(s)
    ensures IsNumeral(Pad4(s)) && ParseDigits(Pad4(s), base) == ParseDigits(s, base)
    decreases 4 - |s|
  {
    if |s| < 4 {
      LeadingZero(s, base);
      PadRoundTrip("0" + s, base);
    }
  }

  // ---- Matching printed IDs ----

  lemma {:induction false} LineOfOneLine(s: string)
    requires OneLine(s)
    ensures Line(s) == s
  {
    if |s| > 0 {
      LineOfOneLine(s[1..]);
    }
  }

  lemma {:induction false} NoMatchBefore(s: string, seps: seq<char>, anchored: bool, n: nat, i: nat)
    requires |seps| > 0 && i < n <= |s| && 0 < i
    requires s[i] == seps[0]
    requires forall j | i < j < n :: s[j] != seps[0]
    ensures MatchBefore(s, seps, anchored, n) == MatchBefore(s, seps, anchored, i + 1)
  {
    if i + 1 < n {
      NoMatchBefore(s, seps, anchored, n - 1, i);
    }
  }

  // A separator that occurs once splits the string there.
  lemma {:induction false} MatchOne(a: string, rest: string, sep: char, seps: seq<char>, anchored: bool)
    requires |a| > 0 && OneLine(a)
    requires sep !in rest
    requires Match(rest, seps, anchored).Some?
    ensures Match(a + [sep] + rest, [sep] + seps, anchored) == Some([a] + Match(rest, seps, anchored).value)
  {
    var s := a + [sep] + rest;
    var i := |a|;
    forall j | i < j < |s| ensures s[j] != sep {
      assert s[j] == rest[j - i - 1];
      assert rest[j - i - 1] in rest;
    }
    NoMatchBefore(s, [sep] + seps, anchored, |s|, i);
    assert s[..i] == a && s[i + 1..] == rest && ([sep] + seps)[1..] == seps;
  }

  // The text that the groups and separators spell out.
  function Join(groups: seq<string>, seps: seq<char>): string
    requires |groups| == |seps| + 1
  {
    if |seps| == 0 then groups[0] else groups[0] + [seps[0]] + Join(groups[1..], seps[1..])
  }

  predicate Groups(groups: seq<string>) {
    forall g | g in groups :: |g| > 0 && OneLine(g)
  }

  // An anchored match splits the whole string into non-empty one-line groups...
  lemma {:induction false} MatchSound(s: string, seps: seq<char>)
    requires Match(s, seps, true).Some?
    ensures var groups := Match(s, seps, true).value;
            |groups| == |seps| + 1 && Groups(groups) && Join(groups, seps) == s
    decreases |seps|, |s| + 1
  {
    if |seps| > 0 {
      MatchBeforeSound(s, seps, |s|);
    }
  }

  lemma {:induction false} MatchBeforeSound(s: string, seps: seq<char>, n: nat)
    requires |seps| > 0 && n <= |s|
    requires MatchBefore(s, seps, true, n).Some?
    ensures var groups := MatchBefore(s, seps, true, n).value;
            |groups| == |seps| + 1 && Groups(groups) && Join(groups, seps) == s
    decreases |seps|, n
  {
    var i := n - 1;
    if s[i] == seps[0] && OneLine(s[..i]) && Match(s[i + 1..], seps[1..], true).Some? {
      MatchSound(s[i + 1..], seps[1..]);
      var rest := Match(s[i + 1..], seps[1..], true).value;
      var groups := [s[..i]] + rest;
      assert groups[1..] == rest;
      assert s == s[..i] + [s[i]] + s[i + 1..];
    } else {
      MatchBeforeSound(s, seps, i);
    }
  }

  // ...and there is a match whenever there is such a split.
  lemma {:induction false} MatchComplete(groups: seq<string>, seps: seq<char>)
    requires |groups| == |seps| + 1 && Groups(groups)
    ensures Match(Join(groups, seps), seps, true).Some?
  {
    var s := Join(groups, seps);
    assert groups[0] in groups;
    if |seps| > 0 {
      var i := |groups[0]|;
      MatchComplete(groups[1..], seps[1..]);
      assert s[i] == seps[0] && s[..i] == groups[0] && s[i + 1..] == Join(groups[1..], seps[1..]);
      MatchBeforeComplete(s, seps, |s|, i);
    } else {
      assert groups == [s];
    }
  }

  lemma {:induction false} MatchBeforeComplete(s: string, seps: seq<char>, n: nat, i: nat)
    requires |seps| > 0 && 0 < i < n <= |s|
    requires s[i] == seps[0] && OneLine(s[..i]) && Match(s[i + 1..], seps[1..], true).Some?
    ensures MatchBefore(s, seps, true, n).Some?
  {
    if n - 1 > i {
      MatchBeforeComplete(s, seps, n - 1, i);
    }
  }

  // A string is accepted exactly if it can be split into fields at all and the
  // fields of the greedy split make up a valid ID.
  lemma ParseMessageIff(s: string)
    ensures (exists groups :: |groups| == 5 && Groups(groups) && Join(groups, MESSAGE_SEPARATORS) == s)
       <==> Match(s, MESSAGE_SEPARATORS, true).Some?
    ensures ParseMessageID(s).Some? ==>
              var groups := Match(s, MESSAGE_SEPARATORS, true).value;
              && |groups| == 5 && Groups(groups) && Join(groups, MESSAGE_SEPARATORS) == s
              && ReadMessage(groups) == ParseMessageID(s) && ValidMessage(ParseMessageID(s).value)
  {
    if Match(s, MESSAGE_SEPARATORS, true).Some? {
      MatchSound(s, MESSAGE_SEPARATORS);
    }
    forall groups | |groups| == 5 && Groups(groups) && Join(groups, MESSAGE_SEPARATORS) == s
      ensures Match(s, MESSAGE_SEPARATORS, true).Some?
    {
      MatchComplete(groups, MESSAGE_SEPARATORS);
    }
  }

  lemma NumeralMatches(s: string, anchored: bool)
    requires IsNumeral(s)
    ensures Match(s, [], anchored) == Some([s])
  {
    LineOfOneLine(s);
  }

  lemma MatchTwo(a: string, sep: char, b: string, anchored: bool)
    requires IsNumeral(a) && IsNumeral(b) && sep !in b
    ensures Match(a + [sep] + b, [sep], anchored) == Some([a, b])
  {
    NumeralMatches(b, anchored);
    MatchOne(a, b, sep, [], anchored);
    assert [sep] + [] == [sep];
    assert [a] + [b] == [a, b];
  }

  lemma MatchThree(a: string, sep: char, b: string, sep': char, c: string, anchored: bool)
    requires IsNumeral(a) && IsNumeral(b) && IsNumeral(c)
    requires sep !in b && sep !in c && sep' !in c && sep != sep'
    ensures Match(a + [sep] + (b + [sep'] + c), [sep, sep'], anchored) == Some([a, b, c])
  {
    MatchTwo(b, sep', c, anchored);
    MatchOne(a, b + [sep'] + c, sep, [sep'], anchored);
    assert [sep] + [sep'] == [sep, sep'];
    assert [a] + [b, c] == [a, b, c];
  }

  lemma {:induction false} MatchFive(clock: string, rand: string, num: string, rev: string, msg: string)
    requires IsNumeral(clock) && IsNumeral(rand) && IsNumeral(num) && IsNumeral(rev) && IsNumeral(msg)
    ensures Match(clock + ['-'] + (rand + ['.'] + (num + ['@'] + (rev + ['#'] + msg))), MESSAGE_SEPARATORS, true)
         == Some([clock, rand, num, rev, msg])
  {
    MatchThree(num, '@', rev, '#', msg, true);
    var r3 := num + ['@'] + (rev + ['#'] + msg);
    MatchOne(rand, r3, '.', ['@', '#'], true);
    assert ['.'] + ['@', '#'] == ['.', '@', '#'];
    assert [rand] + [num, rev, msg] == [rand, num, rev, msg];
    var r2 := rand + ['.'] + r3;
    MatchOne(clock, r2, '-', ['.', '@', '#'], true);
    assert ['-'] + ['.', '@', '#'] == MESSAGE_SEPARATORS;
    assert [clock] + [rand, num, rev, msg] == [clock, rand, num, rev, msg];
  }

  // ---- Round trips ----

  lemma SessionFields(id: SessionID) returns (clock: string, rand: string, num: string)
    ensures IsNumeral(clock) && IsNumeral(rand) && IsNumeral(num)
    ensures PrintSession(id) == clock + "-" + (rand + "." + num)
    ensures ReadSession([clock, rand, num]) == Some(id)
  {
    clock, rand, num := Print(id.peer.clock, Hex), Pad4(Print(id.peer.rand, Hex)), Print(id.num, Decimal);
    PrintRoundTrip(id.peer.clock, Hex);
    PrintRoundTrip(id.peer.rand, Hex);
    PadRoundTrip(Print(id.peer.rand, Hex), Hex);
    PrintRoundTrip(id.num, Decimal);
  }

  lemma MatchPrintedSession(id: SessionID)
    ensures var groups := Match(PrintSession(id), SESSION_SEPARATORS, false);
            groups.Some? && |groups.value| == 3 && ReadSession(groups.value) == Some(id)
  {
    var clock, rand, num := SessionFields(id);
    MatchTwo(rand, '.', num, false);
    var rest := rand + ['.'] + num;
    MatchOne(clock, rest, '-', ['.'], false);
    assert SESSION_SEPARATORS == ['-'] + ['.'];
    assert clock + ['-'] + rest == PrintSession(id);
    assert [clock] + [rand, num] == [clock, rand, num];
  }

  // The five fields as the printer joins them.
  lemma Reassociate(a: string, b: string, c: string, d: string, e: string)
    ensures a + ['-'] + (b + ['.'] + (c + ['@'] + (d + ['#'] + e))) == a + "-" + (b + "." + c) + "@" + d + "#" + e
  {
    var x := a + ['-'] + b + ['.'] + c;
    assert a + ['-'] + (b + ['.'] + (c + ['@'] + (d + ['#'] + e))) == x + (['@'] + d + ['#'] + e);
    assert a + "-" + (b + "." + c) == x;
  }

  lemma ReadFive(groups: seq<string>)
    requires |groups| == 5
    ensures ReadSession(groups) == ReadSession(groups[..3])
  {
  }

  lemma MatchPrintedMessage(id: MessageID)
    ensures var groups := Match(PrintMessage(id), MESSAGE_SEPARATORS, true);
            groups.Some? && |groups.value| == 5 && ReadMessage(groups.value) == Some(id)
  {
    var clock, rand, num := SessionFields(id.ref.id);
    var rev, msg := Print(id.ref.rev, Decimal), Print(id.num, Decimal);
    PrintRoundTrip(id.ref.rev, Decimal);
    PrintRoundTrip(id.num, Decimal);
    MatchFive(clock, rand, num, rev, msg);
    Reassociate(clock, rand, num, rev, msg);
    var groups := [clock, rand, num, rev, msg];
    assert groups[..3] == [clock, rand, num];
    ReadFive(groups);
  }

  // Printing a valid ID and parsing it gives the ID back; an invalid one is
  // refused, whatever its fields.
  lemma MessageRoundTrip(id: MessageID)
    ensures ParseMessageID(PrintMessage(id)) ==
            if id.ref.id.peer.clock != 0 && id.ref.id.peer.rand != 0 && id.num != 0 then Some(id) else None
  {
    MatchPrintedMessage(id);
  }

  lemma SessionRoundTrip(id: SessionID)
    ensures ParseSessionID(PrintSession(id)) == if id.peer.clock != 0 && id.peer.rand != 0 then Some(id) else None
  {
    MatchPrintedSession(id);
  }

  // Different message IDs, valid or not, are printed differently: a printed ID is
  // a key that identifies its message.
  lemma PrintMessageInjective(a: MessageID, b: MessageID)
    requires PrintMessage(a) == PrintMessage(b)
    ensures a == b
  {
    MatchPrintedMessage(a);
    MatchPrintedMessage(b);
  }

  // The documented forms: hexadecimal clock and padded random component, decimal session
  // sequence, revision and message sequence, and the five separators.
  lemma PrintedPeerForm()
    ensures PrintPeer(PeerID(0x58AEE146, 0x191C)) == "58AEE146-191C"
    ensures PrintPeer(PeerID(1, 0xBAD)) == "1-0BAD"
  {
    assert Print(0xBA, Hex) == "BA" && Print(0xBAD, Hex) == "BAD";
    assert Print(0x58AE, Hex) == "58AE";
    assert Print(0x58AEE1, Hex) == "58AEE1";
    assert Print(0x58AEE146, Hex) == "58AEE146";
    assert Print(0x191C, Hex) == "191C";
  }

  lemma PrintedMessageForm(peer: PeerID)
    ensures PrintSession(SessionID(peer, 4)) == PrintPeer(peer) + ".4"
    ensures PrintMessage(MessageID(Ref(SessionID(peer, 4), 5), 6)) == PrintPeer(peer) + ".4@5#6"
  {
    assert Print(4, Decimal) == "4" && Print(5, Decimal) == "5" && Print(6, Decimal) == "6";
    assert PrintPeer(peer) + ".4" == PrintPeer(peer) + "." + "4";
    assert PrintPeer(peer) + ".4@5#6" == PrintPeer(peer) + "." + "4" + "@" + "5" + "#" + "6";
  }
}
