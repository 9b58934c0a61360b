/** The PID list of tools/dvb_pid_dump.c: parse_pid_filter, which reads it with strtol in
    base 0, and the summary line's printer, which writes it into 160 bytes with snprintf.
    Strings are C strings without their terminating NUL. */
module PidList {
  import opened Bytes
  import opened F = Framer

  const MAX_FILTER_PIDS: nat := 32
  const MAX_PID: nat := 0x1fff
  const REPR_SZ: nat := 160

  // ---- strtol(p, &end, 0) ------------------------------------------------------

  predicate IsSpace(c: char) {
    c == ' ' || '\t' <= c <= '\r'
  }

  /** Value of an alphanumeric digit; 36, too big for any base, for anything else. */
  function DigitValue(c: char): nat {
    if '0' <= c <= '9' then (c - '0') as int
    else if 'a' <= c <= 'z' then 10 + (c - 'a') as int
    else if 'A' <= c <= 'Z' then 10 + (c - 'A') as int
    else 36
  }

  function SkipSpaces(s: string, i: nat): (j: nat)
    requires i <= |s|
    ensures i <= j <= |s|
    decreases |s| - i
  {
    if i < |s| && IsSpace(s[i]) then SkipSpaces(s, i + 1) else i
  }

  predicate DigitAt(s: string, i: nat, radix: nat) {
    i < |s| && DigitValue(s[i]) < radix
  }

  /** acc with one more digit behind it. */
  function WithDigit(acc: nat, radix: nat, c: char): nat {
    acc * radix + DigitValue(c)
  }

  /** Read digits from i on: the value accumulated and the index of the first other character. */
  function Scan(s: string, i: nat, radix: nat, acc: nat): (r: (nat, nat))
    requires i <= |s|
    ensures i <= r.1 <= |s|
    decreases |s| - i
  {
    if DigitAt(s, i, radix) then Scan(s, i + 1, radix, WithDigit(acc, radix, s[i])) else (acc, i)
  }

  /** Where the digits of a number at j start, and their base. */
  function Numeral(s: string, j: nat): (r: (nat, nat))
    requires j <= |s|
    ensures j <= r.0 <= |s|
  {
    var hex := j + 1 < |s| && s[j] == '0' && (s[j + 1] == 'x' || s[j + 1] == 'X') && DigitAt(s, j + 2, 16);
    (if hex then j + 2 else j, if hex then 16 else if j < |s| && s[j] == '0' then 8 else 10)
  }

  /** Value and end index; the end index is p when there is no number. Saturation at
      LONG_MAX is not modelled: such values are out of range for a PID anyway. */
  function Strtol(s: string, p: nat): (r: (int, nat))
    requires p <= |s|
    ensures p <= r.1 <= |s|
  {
    var i := SkipSpaces(s, p);
    var signed := i < |s| && (s[i] == '-' || s[i] == '+');
    var (start, radix) := Numeral(s, if signed then i + 1 else i);
    var (v: int, end) := Scan(s, start, radix, 0);
    if end == start then (0, p) else (if signed && s[i] == '-' then -v else v, end)
  }

  // ---- parse_pid_filter ----------------------------------------------------------

  function ParseFrom(s: string, p: nat, pids: seq<nat>): Option<PidFilter>
    requires p <= |s|
    decreases |s| - p
  {
    if p == |s| then
      if pids == [] then None else Some(Pids(pids))
    else
      var (v, end) := Strtol(s, p);
      if end == p || v < 0 || MAX_PID < v || MAX_FILTER_PIDS <= |pids| then None
      else if end == |s| then ParseFrom(s, end, pids + [v])
      else if s[end] == ',' then ParseFrom(s, end + 1, pids + [v])
      else None
  }

  function Parse(s: string): Option<PidFilter> {
    if s == "" then Some(Pids([0]))
    else if s == "-1" then Some(PassAll)
    else ParseFrom(s, 0, [])
  }

  predicate Printable(pids: seq<nat>) {
    0 < |pids| <= MAX_FILTER_PIDS && forall k :: 0 <= k < |pids| ==> pids[k] <= MAX_PID
  }

  lemma {:induction false} ParseFromInRange(s: string, p: nat, pids: seq<nat>)
    requires p <= |s| && |pids| <= MAX_FILTER_PIDS && forall k :: 0 <= k < |pids| ==> pids[k] <= MAX_PID
    ensures match ParseFrom(s, p, pids) { case None => true case Some(f) => f.Pids? && Printable(f.pids) }
    decreases |s| - p
  {
    if p < |s| {
      var (v, end) := Strtol(s, p);
      if !(end == p || v < 0 || MAX_PID < v || MAX_FILTER_PIDS <= |pids|) {
        if end == |s| {
          ParseFromInRange(s, end, pids + [v]);
        } else if s[end] == ',' {
          ParseFromInRange(s, end + 1, pids + [v]);
        }
      }
    }
  }

  /** From p on, s is a list of entries that strtol reads as vals: each ends at a comma or with
      the string, and a last comma may end it too. */
  predicate ReadsAs(s: string, p: nat, vals: seq<int>)
    requires p <= |s|
    decreases |vals|
  {
    if p == |s| || vals == [] then p == |s| && vals == []
    else
      var (v, end) := Strtol(s, p);
      && end != p && v == vals[0]
      && (if end == |s| then |vals| == 1 else s[end] == ',' && ReadsAs(s, end + 1, vals[1..]))
  }

  predicate InRange(vals: seq<int>) {
    |vals| <= 32 && forall k :: 0 <= k < |vals| ==> 0 <= vals[k] <= 0x1fff
  }

  lemma {:induction false} ParseFromSound(s: string, p: nat, pids: seq<nat>) returns (more: seq<nat>)
    requires p <= |s| && InRange(pids)
    ensures ParseFrom(s, p, pids).Some? ==>
              && ParseFrom(s, p, pids) == Some(Pids(pids + more)) && pids + more != []
              && ReadsAs(s, p, more) && InRange(pids + more)
    decreases |s| - p
  {
    more := [];
    if p == |s| || ParseFrom(s, p, pids).None? {
      assert pids + [] == pids;
      return;
    }
    var (v, end) := Strtol(s, p);
    var next := if end == |s| then end else end + 1;
    var rest := ParseFromSound(s, next, pids + [v]);
    more := [v] + rest;
    assert more[1..] == rest && pids + [v] + rest == pids + more;
  }

  lemma {:induction false} ParseFromComplete(s: string, p: nat, pids: seq<nat>, more: seq<nat>)
    requires p <= |s| && ReadsAs(s, p, more) && InRange(pids + more) && pids + more != []
    ensures ParseFrom(s, p, pids) == Some(Pids(pids + more))
    decreases |more|
  {
    if more == [] {
      assert pids + [] == pids;
      return;
    }
    var (v, end) := Strtol(s, p);
    assert (pids + more)[|pids|] == more[0] == v;
    assert pids + [v] + more[1..] == pids + more;
    if end == |s| {
      assert pids + [v] == pids + more;
    } else {
      ParseFromComplete(s, end + 1, pids + [v], more[1..]);
    }
  }

  /** What parse_pid_filter accepts, for every string: nothing at all is PID 0, -1 is everything,
      and otherwise a list of one to 32 numbers of at most 13 bits, as strtol reads them. */
  lemma ParsesIff(s: string, pids: seq<nat>)
    ensures s == "" ==> Parse(s) == Some(Pids([0]))
    ensures Parse(s) == Some(PassAll) <==> s == "-1"
    ensures s != "" && s != "-1" ==>
              (Parse(s) == Some(Pids(pids)) <==> pids != [] && InRange(pids) && ReadsAs(s, 0, pids))
  {
    if s != "" && s != "-1" {
      var more := ParseFromSound(s, 0, []);
      assert [] + more == more && [] + pids == pids;
      if pids != [] && InRange(pids) && ReadsAs(s, 0, pids) {
        ParseFromComplete(s, 0, [], pids);
      }
    }
  }

  // ---- the printer ---------------------------------------------------------------

  function Digit(d: nat): char
    requires d < 10
  {
    '0' + d as char
  }

  function Decimal(n: nat): (r: string)
    ensures r != []
  {
    if n < 10 then [Digit(n)] else Decimal(n / 10) + [Digit(n % 10)]
  }

  /** The snprintf loop from entry i on. A piece that does not fit is cut by snprintf and
      ends the loop. */
  function PrintFrom(pids: seq<nat>, i: nat, text: string): string
    requires i <= |pids| && |text| < REPR_SZ
    decreases |pids| - i
  {
    if i == |pids| then text
    else
      var piece := (if i == 0 then "" else ",") + Decimal(pids[i]);
      var room := REPR_SZ - |text|;
      if room <= |piece| then text + piece[..room - 1] else PrintFrom(pids, i + 1, text + piece)
  }

  function Print(f: PidFilter): string {
    match f
    case PassAll => "all"
    case Pids(pids) => PrintFrom(pids, 0, "")
  }

  // ---- the two undo each other ------------------------------------------------------

  /** The comma-separated list, with no limit on its length. */
  function Join(pids: seq<nat>): string
    requires pids != []
  {
    if |pids| == 1 then Decimal(pids[0]) else Decimal(pids[0]) + "," + Join(pids[1..])
  }

  lemma DecimalLength(n: nat)
    requires n <= MAX_PID
    ensures |Decimal(n)| == if n < 10 then 1 else if n < 100 then 2 else if n < 1000 then 3 else 4
  {
    if 10 <= n {
      var m := n / 10;
      if 10 <= m {
        var q := m / 10;
        if 10 <= q {
          assert |Decimal(q / 10)| == 1;
        }
        assert |Decimal(q)| == if q < 10 then 1 else 2;
      }
      assert |Decimal(m)| == if m < 10 then 1 else if m < 100 then 2 else 3;
    }
  }

  lemma {:induction false} JoinLength(pids: seq<nat>)
    requires pids != [] && forall k :: 0 <= k < |pids| ==> pids[k] <= MAX_PID
    ensures |Join(pids)| <= 5 * |pids| - 1
    ensures (forall k :: 0 <= k < |pids| ==> 1000 <= pids[k]) ==> |Join(pids)| == 5 * |pids| - 1
    decreases |pids|
  {
    DecimalLength(pids[0]);
    if 1 < |pids| {
      JoinLength(pids[1..]);
    }
  }

  /** While everything fits, the printer appends the joined rest. */
  lemma {:induction false} PrintFromIsJoin(pids: seq<nat>, i: nat, text: string)
    requires i < |pids| && |text| + (if i == 0 then 0 else 1) + |Join(pids[i..])| < REPR_SZ
    ensures PrintFrom(pids, i, text) == text + (if i == 0 then "" else ",") + Join(pids[i..])
    decreases |pids| - i
  {
    var sep := if i == 0 then "" else ",";
    var piece := sep + Decimal(pids[i]);
    if i + 1 < |pids| {
      assert pids[i..][1..] == pids[i + 1..];
      PrintFromIsJoin(pids, i + 1, text + piece);
      assert text + piece + "," + Join(pids[i + 1..]) == text + sep + Join(pids[i..]);
    } else {
      assert text + piece == text + sep + Join(pids[i..]);
      assert PrintFrom(pids, i + 1, text + piece) == text + piece;
    }
  }

  /** 159 characters always suffice, and are needed for 32 four-digit PIDs: the 160-byte
      buffer never truncates and is not a byte too long. */
  lemma NeverTruncates(pids: seq<nat>)
    requires Printable(pids)
    ensures Print(Pids(pids)) == Join(pids) && |Print(Pids(pids))| <= REPR_SZ - 1
    ensures |pids| == MAX_FILTER_PIDS && (forall k :: 0 <= k < |pids| ==> 1000 <= pids[k]) ==>
              |Print(Pids(pids))| == REPR_SZ - 1
    ensures Print(PassAll) == "all" && REPR_SZ == 160
  {
    JoinLength(pids);
    assert pids[0..] == pids;
    PrintFromIsJoin(pids, 0, "");
  }

  /** Positional value of a digit string. */
  function Value(t: string, radix: nat): nat {
    if t == "" then 0 else WithDigit(Value(t[..|t| - 1], radix), radix, t[|t| - 1])
  }

  lemma {:induction false} ScanReads(s: string, p: nat, i: nat, end: nat, radix: nat)
    requires p <= i <= end <= |s|
    requires forall k :: i <= k < end ==> DigitAt(s, k, radix)
    requires !DigitAt(s, end, radix)
    ensures Scan(s, i, radix, Value(s[p..i], radix)) == (Value(s[p..end], radix), end)
    decreases end - i
  {
    if i < end {
      assert s[p..i + 1][..i - p] == s[p..i];
      ScanReads(s, p, i + 1, end, radix);
    }
  }

  lemma {:induction false} DecimalReads(n: nat)
    ensures Value(Decimal(n), 10) == n
    ensures forall k :: 0 <= k < |Decimal(n)| ==> DigitValue(Decimal(n)[k]) < 10
    ensures Decimal(n)[0] == '0' <==> n == 0
    decreases n
  {
    if n < 10 {
      assert Decimal(n)[..0] == "";
    } else {
      DecimalReads(n / 10);
      assert Decimal(n)[..|Decimal(n)| - 1] == Decimal(n / 10);
    }
  }

  lemma {:induction false} SkipsTo(s: string, p: nat, i: nat)
    requires p <= i <= |s| && forall k :: p <= k < i ==> s[k] == ' ' || '\t' <= s[k] <= '\r'
    requires i < |s| ==> s[i] != ' ' && !('\t' <= s[i] <= '\r')
    ensures SkipSpaces(s, p) == i
    decreases i - p
  {
    if p < i {
      SkipsTo(s, p + 1, i);
    }
  }

  /** The digits of the largest base, and what they stand for. */
  lemma HexDigits(c: char)
    ensures forall k :: 0 <= k < 16 ==> DigitValue("0123456789abcdef"[k]) == DigitValue("0123456789ABCDEF"[k]) == k
    ensures DigitValue(c) < 16 <==> c in "0123456789abcdefABCDEF"
  {
    var all := "0123456789abcdefABCDEF";
    if DigitValue(c) < 16 {
      var k := DigitValue(c) + if 'A' <= c <= 'Z' then 6 else 0;
      assert all[k] == c;
    }
  }

  /** A number as C writes it: from j on, its digits starting at `start`. */
  predicate NumeralAt(s: string, j: nat, start: nat, radix: nat) {
    && j < |s|
    && var hex := s[j] == '0' && j + 2 < |s| && (s[j + 1] == 'x' || s[j + 1] == 'X') && DigitAt(s, j + 2, 16);
       || (radix == 16 && start == j + 2 && hex)
       || (radix == 8 && start == j && s[j] == '0' && !hex)
       || (radix == 10 && start == j && '1' <= s[j] <= '9')
  }

  lemma NumeralIs(s: string, j: nat, start: nat, radix: nat)
    requires NumeralAt(s, j, start, radix)
    ensures Numeral(s, j) == (start, radix)
  {
  }

  lemma StrtolScans(s: string, p: nat, start: nat, radix: nat, v: nat, end: nat)
    requires p <= |s| && start <= |s| && start < end && Scan(s, start, radix, 0) == (v, end)
    requires var i := SkipSpaces(s, p);
             i < |s| && Numeral(s, if s[i] == '-' || s[i] == '+' then i + 1 else i) == (start, radix)
    ensures var w: int := v; Strtol(s, p) == (if s[SkipSpaces(s, p)] == '-' then -w else w, end)
  {
  }

  lemma ScansAll(s: string, start: nat, end: nat, radix: nat)
    requires start <= end <= |s| && forall k :: start <= k < end ==> DigitAt(s, k, radix)
    requires !DigitAt(s, end, radix)
    ensures Scan(s, start, radix, 0) == (Value(s[start..end], radix), end)
  {
    assert s[start..start] == "";
    ScanReads(s, start, start, end, radix);
  }

  /** strtol in base 0: behind spaces and a sign, all the digits of a hexadecimal, octal or decimal
      number. */
  lemma StrtolReads(s: string, p: nat, i: nat, start: nat, end: nat, radix: nat)
    requires p <= i < |s| && forall k :: p <= k < i ==> s[k] == ' ' || '\t' <= s[k] <= '\r'
    requires s[i] != ' ' && !('\t' <= s[i] <= '\r')
    requires NumeralAt(s, if s[i] == '-' || s[i] == '+' then i + 1 else i, start, radix)
    requires start <= end <= |s| && forall k :: start <= k < end ==> DigitAt(s, k, radix)
    requires !DigitAt(s, end, radix)
    ensures var v: int := Value(s[start..end], radix); Strtol(s, p) == (if s[i] == '-' then -v else v, end)
  {
    SkipsTo(s, p, i);
    assert DigitAt(s, start, radix);
    ScansAll(s, start, end, radix);
    NumeralIs(s, if s[i] == '-' || s[i] == '+' then i + 1 else i, start, radix);
    StrtolScans(s, p, start, radix, Value(s[start..end], radix), end);
  }

  /** Without a digit there is no number. */
  lemma StrtolFindsNone(s: string, p: nat, i: nat)
    requires p <= i <= |s| && forall k :: p <= k < i ==> s[k] == ' ' || '\t' <= s[k] <= '\r'
    requires i < |s| ==> s[i] != ' ' && !('\t' <= s[i] <= '\r')
    requires var j := if i < |s| && (s[i] == '-' || s[i] == '+') then i + 1 else i;
             j < |s| ==> !('0' <= s[j] <= '9')
    ensures Strtol(s, p) == (0, p)
  {
    SkipsTo(s, p, i);
  }

  /** strtol in base 0 reads a printed PID back: the printer writes no leading zero that
      could be taken for octal, except in 0 itself. */
  lemma StrtolReadsDecimal(s: string, p: nat, n: nat)
    requires p + |Decimal(n)| <= |s| && s[p..p + |Decimal(n)|] == Decimal(n)
    requires p + |Decimal(n)| < |s| ==> s[p + |Decimal(n)|] == ','
    ensures Strtol(s, p) == (n, p + |Decimal(n)|)
  {
    ScansDecimal(s, p, n);
    FirstDigit(n);
    assert s[p] == Decimal(n)[0];
    IsNumeral(s, p, n == 0);
    StrtolScans(s, p, p, if n == 0 then 8 else 10, n, p + |Decimal(n)|);
  }

  lemma FirstDigit(n: nat)
    ensures '0' <= Decimal(n)[0] <= '9' && (Decimal(n)[0] == '0' <==> n == 0) && |Decimal(0)| == 1
  {
    DecimalReads(n);
    var d := Decimal(n)[0];
    assert DigitValue(d) < 10;
  }

  lemma IsNumeral(s: string, p: nat, zero: bool)
    requires p < |s| && '0' <= s[p] <= '9' && (s[p] == '0' <==> zero) && (zero && p + 1 < |s| ==> s[p + 1] == ',')
    ensures SkipSpaces(s, p) == p && Numeral(s, p) == (p, if zero then 8 else 10)
  {
  }

  /** The digits of a printed number scan as that number, in the radix strtol picks. */
  lemma ScansDecimal(s: string, p: nat, n: nat)
    requires p + |Decimal(n)| <= |s| && s[p..p + |Decimal(n)|] == Decimal(n)
    requires p + |Decimal(n)| < |s| ==> s[p + |Decimal(n)|] == ','
    ensures Scan(s, p, if n == 0 then 8 else 10, 0) == (n, p + |Decimal(n)|)
  {
    var d := Decimal(n);
    var end := p + |d|;
    DecimalReads(n);
    assert forall k :: p <= k < end ==> s[k] == d[k - p];
    assert s[p..p] == "";
    if n == 0 {
      assert s[p] == '0' && end == p + 1;
    } else {
      ScanReads(s, p, p, end, 10);
    }
  }

  /** The PIDs from the i-th on, printed, occupy s from p to the end. */
  predicate JoinedAt(s: string, p: nat, pids: seq<nat>, i: nat)
    requires i < |pids|
    decreases |pids| - i
  {
    var end := p + |Decimal(pids[i])|;
    && end <= |s| && s[p..end] == Decimal(pids[i])
    && (if i + 1 == |pids| then end == |s| else end < |s| && s[end] == ',' && JoinedAt(s, end + 1, pids, i + 1))
  }

  lemma {:induction false} JoinIsJoinedAt(s: string, p: nat, pids: seq<nat>, i: nat)
    requires p <= |s| && i < |pids| && s[p..] == Join(pids[i..])
    ensures JoinedAt(s, p, pids, i)
    decreases |pids| - i
  {
    var d := Decimal(pids[i]);
    if i + 1 < |pids| {
      assert pids[i..][1..] == pids[i + 1..];
      SplitAt(s, p, d, Join(pids[i + 1..]));
      JoinIsJoinedAt(s, p + |d| + 1, pids, i + 1);
    } else {
      assert s[p..p + |d|] == s[p..];
    }
  }

  lemma SplitAt(s: string, p: nat, d: string, rest: string)
    requires p <= |s| && s[p..] == d + "," + rest
    ensures var end := p + |d|;
            end < |s| && s[p..end] == d && s[end] == ',' && s[end + 1..] == rest
  {
    var t := s[p..];
    assert t[..|d|] == d && t[|d|] == ',' && t[|d| + 1..] == rest;
  }

  /** The loop reads one printed PID. */
  lemma ParseReadsOne(s: string, p: nat, pids: seq<nat>, pid: nat)
    requires pid <= MAX_PID && |pids| < MAX_FILTER_PIDS
    requires var end := p + |Decimal(pid)|;
             end <= |s| && s[p..end] == Decimal(pid) && (end < |s| ==> s[end] == ',')
    ensures var end := p + |Decimal(pid)|;
            ParseFrom(s, p, pids) == ParseFrom(s, if end == |s| then end else end + 1, pids + [pid])
  {
    StrtolReadsDecimal(s, p, pid);
  }

  lemma ParseEnds(s: string, pids: seq<nat>)
    requires pids != []
    ensures ParseFrom(s, |s|, pids) == Some(Pids(pids))
  {
  }

  /** One turn of the loop over a printed list. */
  lemma ParseReadsNext(s: string, p: nat, pids: seq<nat>, i: nat)
    requires i < |pids| && JoinedAt(s, p, pids, i) && Printable(pids)
    ensures var end := p + |Decimal(pids[i])|;
            && end <= |s| && (i + 1 < |pids| ==> end < |s| && JoinedAt(s, end + 1, pids, i + 1))
            && (i + 1 == |pids| ==> end == |s|)
            && ParseFrom(s, p, pids[..i]) == ParseFrom(s, if end == |s| then end else end + 1, pids[..i + 1])
  {
    ParseReadsOne(s, p, pids[..i], pids[i]);
    assert pids[..i] + [pids[i]] == pids[..i + 1];
  }

  /** The loop over a printed list, one PID a step. */
  lemma {:induction false} ParseReadsList(s: string, p: nat, pids: seq<nat>, i: nat)
    requires i < |pids| && JoinedAt(s, p, pids, i) && Printable(pids)
    ensures ParseFrom(s, p, pids[..i]) == Some(Pids(pids))
    decreases |pids| - i
  {
    ParseReadsNext(s, p, pids, i);
    var end := p + |Decimal(pids[i])|;
    if i + 1 < |pids| {
      ParseReadsList(s, end + 1, pids, i + 1);
    } else {
      assert pids[..i + 1] == pids;
      ParseEnds(s, pids);
    }
  }

  /** A printed list is not one of the two short forms. */
  lemma JoinIsAList(pids: seq<nat>)
    requires pids != []
    ensures Join(pids) != "" && Join(pids) != "-1"
  {
    var d := Decimal(pids[0]);
    DecimalReads(pids[0]);
    assert Join(pids)[0] == d[0] && DigitValue(d[0]) < 10;
    assert DigitValue('-') == 36;
  }

  lemma JoinParses(pids: seq<nat>)
    requires Printable(pids)
    ensures Parse(Join(pids)) == Some(Pids(pids))
  {
    var text := Join(pids);
    JoinIsAList(pids);
    assert text[0..] == text && pids[0..] == pids && pids[..0] == [];
    JoinIsJoinedAt(text, 0, pids, 0);
    ParseReadsList(text, 0, pids, 0);
  }

  /** Whatever list parse_pid_filter accepted, printing it and parsing the text again
      gives the same filter. */
  lemma PrintParses(s: string)
    requires Parse(s).Some? && Parse(s).value.Pids?
    ensures Parse(Print(Parse(s).value)) == Parse(s)
    ensures Printable(Parse(s).value.pids)
  {
    if s != "" {
      ParseFromInRange(s, 0, []);
    }
    var pids := Parse(s).value.pids;
    NeverTruncates(pids);
    JoinParses(pids);
  }

  // ---- the loops ----------------------------------------------------------------

  /** parse_pid_filter; answers 0 or -1, and in the first case fills `out`. */
  method ParsePidFilter(s: string) returns (rc: int, out: PidFilter)
    ensures match Parse(s) { case None => rc == -1 case Some(f) => rc == 0 && out == f }
  {
    out := PassAll;
    if s == "" {
      return 0, Pids([0]);
    }
    if s == "-1" {
      return 0, PassAll;
    }
    var pids := new nat[MAX_FILTER_PIDS](_ => 0);
    var n := 0;
    var p := 0;
    while p < |s|
      invariant p <= |s| && n <= pids.Length == MAX_FILTER_PIDS
      invariant ParseFrom(s, p, pids[..n]) == ParseFrom(s, 0, [])
      decreases |s| - p
    {
      var (v, end) := Strtol(s, p);
      if end == p || v < 0 || v > MAX_PID || n >= MAX_FILTER_PIDS {
        return -1, out;
      }
      ghost var before := pids[..n];
      pids[n] := v;
      n := n + 1;
      assert pids[..n] == before + [v];
      p := end;
      if p < |s| {
        if s[p] != ',' {
          return -1, out;
        }
        p := p + 1;
      }
    }
    if n == 0 {
      return -1, out;
    }
    return 0, Pids(pids[..n]);
  }

  /** The loop that fills filter_repr. */
  method FilterRepr(pids: seq<nat>) returns (text: string)
    ensures text == Print(Pids(pids))
  {
    text := "";
    for i := 0 to |pids|
      invariant |text| < REPR_SZ
      invariant PrintFrom(pids, i, text) == PrintFrom(pids, 0, "")
    {
      var piece := (if i == 0 then "" else ",") + Decimal(pids[i]);
      if |piece| >= REPR_SZ - |text| {
        return text + piece[..REPR_SZ - |text| - 1];
      }
      text := text + piece;
    }
  }
}
