/** A day's series of an attribute: running-maximum fill, printing as a comma list, and the view aggregate that
    parses the lists of its machines, adds them up and fills again. */
module AttrSeries {
  import opened Decimal
  import opened Seqs
  import opened Word32

  const ULONG_MAX: nat := 0xFFFF_FFFF_FFFF_FFFF

  predicate Words(s: seq<nat>) { forall i :: 0 <= i < |s| ==> s[i] < WRAP }

  function Max(a: nat, b: nat): nat { if a > b then a else b }

  /** The largest of the first `n` values, 0 for none. */
  function Peak(s: seq<nat>, n: nat): nat
    requires n <= |s|
  {
    if n == 0 then 0 else Max(Peak(s, n - 1), s[n - 1])
  }

  /** What the fill leaves: for cumulative attributes the running maximum, otherwise the values. */
  function Filled(s: seq<nat>, cumulative: bool): (r: seq<nat>)
    ensures |r| == |s|
  {
    if cumulative then seq(|s|, i requires 0 <= i < |s| => Peak(s, i + 1)) else s
  }

  function SumOf(s: seq<nat>): nat { if |s| == 0 then 0 else SumOf(s[..|s| - 1]) + s[|s| - 1] }

  /** `dwTotal`: the last maximum, or the sum modulo 2^32. */
  function TotalOf(s: seq<nat>, cumulative: bool): nat {
    if cumulative then Peak(s, |s|) else SumOf(s) % WRAP
  }

  // ----- printing -----

  function Cell(v: nat, showZero: bool): string { if !showZero && v == 0 then "-" else Show(v) }

  function Csv(s: seq<nat>, showZero: bool): string {
    if |s| == 0 then "" else Cell(s[0], showZero) + (if |s| > 1 then "," else "") + Csv(s[1..], showZero)
  }

  /** The cells of the first of `n` values, with a comma after each but the n-th. */
  function Listed(s: seq<nat>, n: nat, showZero: bool): string {
    if |s| == 0 then ""
    else
      var k := |s| - 1;
      Listed(s[..k], n, showZero) + Cell(s[k], showZero) + (if |s| < n then "," else "")
  }

  lemma FilledAt(s: seq<nat>, cumulative: bool, i: nat)
    requires i < |s|
    ensures Filled(s, cumulative)[i] == if cumulative then Max(Peak(s, i), s[i]) else s[i]
    ensures Peak(s, i + 1) == Max(Peak(s, i), s[i])
  {
  }

  lemma TotalStep(s: seq<nat>, cumulative: bool, i: nat)
    requires i < |s|
    ensures TotalOf(s[..i + 1], cumulative) ==
            if cumulative then Peak(s, i + 1) else (TotalOf(s[..i], cumulative) + s[i]) % WRAP
  {
    assert s[..i + 1][..i] == s[..i];
    if cumulative {
      PeakPrefix(s, i + 1, i + 1);
    } else {
      AddMod(SumOf(s[..i]), s[i]);
    }
  }

  lemma {:induction false} PeakPrefix(s: seq<nat>, m: nat, n: nat)
    requires n <= m <= |s|
    ensures Peak(s[..m], n) == Peak(s, n)
  {
    if n > 0 {
      PeakPrefix(s, m, n - 1);
    }
  }

  lemma ListedStep(s: seq<nat>, v: nat, n: nat, showZero: bool)
    ensures Listed(s + [v], n, showZero) ==
            Listed(s, n, showZero) + Cell(v, showZero) + (if |s| + 1 < n then "," else "")
  {
    assert (s + [v])[..|s|] == s;
  }

  /** The loop that fills the first `n` slots of the array in place, totals them and prints them. */
  method FillAndPrint(report: array<nat>, n: nat, cumulative: bool, showZero: bool)
      returns (text: string, total: nat, valueMax: nat)
    requires n <= report.Length
    modifies report
    ensures report[..n] == Filled(old(report[..n]), cumulative) && report[n..] == old(report[n..])
    ensures text == Listed(report[..n], n, showZero)
    ensures total == TotalOf(old(report[..n]), cumulative)
    ensures valueMax == Peak(old(report[..n]), n)
  {
    hide Filled, Peak, TotalOf, Listed, Show;
    ghost var before := report[..n];
    var his: nat := 0;
    text, total, valueMax := "", 0, 0;
    StartValues(before, n, cumulative, showZero);
    for i := 0 to n
      invariant report[..i] == Filled(before, cumulative)[..i]
      invariant forall k :: i <= k < report.Length ==> report[k] == old(report[k])
      invariant cumulative ==> his == Peak(before, i)
      invariant valueMax == Peak(before, i)
      invariant total == TotalOf(before[..i], cumulative)
      invariant text == Listed(report[..i], n, showZero)
    {
      FilledAt(before, cumulative, i);
      TotalStep(before, cumulative, i);
      assert report[i] == before[i];
      ghost var printed := report[..i];
      if cumulative {
        if report[i] > his {
          his := report[i];
        } else {
          report[i] := his;
        }
        total := his;
      } else {
        total := (total + report[i]) % WRAP;
      }
      assert report[..i + 1] == printed + [report[i]];
      ListedStep(printed, report[i], n, showZero);
      if report[i] > valueMax {
        valueMax := report[i];
      }
      text := PrintCell(text, report[i], showZero, i + 1 < n);
    }
    assert before[..n] == before;
    assert report[n..] == old(report[n..]);
    assert Filled(before, cumulative)[..n] == Filled(before, cumulative);
  }

  lemma StartValues(s: seq<nat>, n: nat, cumulative: bool, showZero: bool)
    ensures Peak(s, 0) == 0 && TotalOf(s[..0], cumulative) == 0 && Listed([], n, showZero) == ""
  {
  }

  method PrintCell(text0: string, v: nat, showZero: bool, more: bool) returns (text: string)
    ensures text == text0 + Cell(v, showZero) + (if more then "," else "")
  {
    hide Show;
    text := text0;
    if !showZero && v == 0 {
      text := text + "-";
    } else {
      text := text + Show(v);
    }
    if more {
      text := text + ",";
    }
  }

  // ----- reading a list back -----

  function SkipCommas(s: string): (r: string)
    ensures |r| <= |s| && (|r| > 0 ==> r[0] != ',')
  {
    if |s| > 0 && s[0] == ',' then SkipCommas(s[1..]) else s
  }

  function TokenLength(s: string): (n: nat)
    ensures n <= |s|
  {
    if |s| == 0 || s[0] == ',' then 0 else 1 + TokenLength(s[1..])
  }

  /** `strtok_r(..., ",", ...)`: the next token, "" when there is none, and the text behind its delimiter. */
  function NextToken(s: string): (r: (string, string))
    ensures |r.0| > 0 ==> |r.1| < |s|
  {
    var t := SkipCommas(s);
    var n := TokenLength(t);
    (t[..n], if n < |t| then t[n + 1..] else "")
  }

  /** Add the tokens of a list to the slots from `i` on. */
  function AddList(s: string, i: nat, n: nat, acc: seq<nat>): (r: seq<nat>)
    requires n <= |acc|
    ensures |r| == |acc|
    decreases n - i
  {
    var (token, rest) := NextToken(s);
    if i >= n || token == "" then acc
    else if token[0] == '0' then AddList(rest, i + 1, n, acc)
    else AddList(rest, i + 1, n, acc[i := (acc[i] + ReadUnsigned(token, ULONG_MAX)) % WRAP])
  }

  /** The loop of the view aggregate over one machine's list. */
  method AddTokens(text: string, n: nat, day: array<nat>)
    requires n <= day.Length
    modifies day
    ensures day[..] == AddList(text, 0, n, old(day[..]))
  {
    hide NextToken, ReadUnsigned;
    var rest := text;
    var i := 0;
    while i < n
      invariant 0 <= i <= n
      invariant AddList(text, 0, n, old(day[..])) == AddList(rest, i, n, day[..])
    {
      var (token, behind) := NextToken(rest);
      if token == "" {
        return;
      }
      rest := behind;
      if token[0] == '0' {
        i := i + 1;
        continue;
      }
      ghost var before := day[..];
      day[i] := (day[i] + ReadUnsigned(token, ULONG_MAX)) % WRAP;
      assert day[..] == before[i := (before[i] + ReadUnsigned(token, ULONG_MAX)) % WRAP];
      i := i + 1;
    }
  }

  lemma {:induction false} TokenOfText(t: string, rest: string)
    requires |t| > 0 && ',' !in t && (|rest| > 0 ==> rest[0] == ',')
    ensures TokenLength(t + rest) == |t|
    ensures NextToken(t + rest) == (t, if |rest| > 0 then rest[1..] else "")
  {
    TokenLengthText(t, rest);
    assert t[0] in t;
    assert (t + rest)[..|t|] == t;
    assert |rest| > 0 ==> (t + rest)[|t| + 1..] == rest[1..];
  }

  lemma {:induction false} TokenLengthText(t: string, rest: string)
    requires ',' !in t && (|rest| > 0 ==> rest[0] == ',')
    ensures TokenLength(t + rest) == |t|
  {
    if |t| > 0 {
      assert t[0] in t;
      assert (t + rest)[1..] == t[1..] + rest;
      TokenLengthText(t[1..], rest);
    } else {
      assert t + rest == rest;
    }
  }

  lemma CellToken(v: nat, showZero: bool)
    requires v < WRAP
    ensures |Cell(v, showZero)| > 0 && ',' !in Cell(v, showZero)
    ensures Cell(v, showZero)[0] == '0' ==> v == 0
    ensures ReadUnsigned(Cell(v, showZero), ULONG_MAX) == v
  {
    if !showZero && v == 0 {
      SpanUnique("-", 0);
    } else {
      hide Show;
      assert Show(v) + "" == Show(v);
      ReadOfShow(v, "", ULONG_MAX);
    }
  }

  /** `acc` with `s` added, modulo 2^32, to the slots from `i` on. */
  function Plus(acc: seq<nat>, s: seq<nat>, i: nat): (r: seq<nat>)
    ensures |r| == |acc|
  {
    seq(|acc|, k requires 0 <= k < |acc| => if i <= k < i + |s| then (acc[k] + s[k - i]) % WRAP else acc[k])
  }

  lemma PlusStep(acc: seq<nat>, s: seq<nat>, i: nat)
    requires |s| > 0 && i < |acc|
    ensures Plus(acc[i := (acc[i] + s[0]) % WRAP], s[1..], i + 1) == Plus(acc, s, i)
  {
  }

  lemma PlusZero(acc: seq<nat>, i: nat)
    requires Words(acc) && i < |acc|
    ensures acc[i := (acc[i] + 0) % WRAP] == acc
  {
  }

  /** A machine's series comes back exactly from its list, hidden zeros included: it is added slot by slot. */
  lemma {:induction false} AddListExact(s: seq<nat>, showZero: bool, i: nat, n: nat, acc: seq<nat>)
    requires Words(s) && Words(acc) && i + |s| == n <= |acc|
    ensures AddList(Csv(s, showZero), i, n, acc) == Plus(acc, s, i)
    decreases |s|
  {
    hide ReadUnsigned, NextToken, Show, Cell, Plus;
    if |s| == 0 {
      PlusNone(acc, i);
    } else {
      var cell, tail := Cell(s[0], showZero), Csv(s[1..], showZero);
      var rest := (if |s| > 1 then "," else "") + tail;
      CellToken(s[0], showZero);
      assert Csv(s, showZero) == cell + rest;
      CsvEmpty(s[1..], showZero);
      TokenOfText(cell, rest);
      assert NextToken(Csv(s, showZero)) == (cell, tail);
      var acc' := acc[i := (acc[i] + s[0]) % WRAP];
      if cell[0] == '0' { PlusZero(acc, i); }
      AddListExact(s[1..], showZero, i + 1, n, acc');
      PlusStep(acc, s, i);
    }
  }

  lemma PlusNone(acc: seq<nat>, i: nat)
    ensures Plus(acc, [], i) == acc
  {
  }

  lemma CsvEmpty(s: seq<nat>, showZero: bool)
    ensures |s| == 0 ==> Csv(s, showZero) == ""
  {
  }

  lemma CsvStep(s: seq<nat>, k: nat, showZero: bool)
    requires k < |s|
    ensures Csv(s[k..], showZero) ==
            Cell(s[k], showZero) + (if k + 1 < |s| then "," else "") + Csv(s[k + 1..], showZero)
  {
    hide Cell;
    assert s[k..][1..] == s[k + 1..];
  }

  lemma {:induction false} ListedIsCsv(s: seq<nat>, k: nat, showZero: bool)
    requires k <= |s|
    ensures Listed(s[..k], |s|, showZero) + Csv(s[k..], showZero) == Csv(s, showZero)
  {
    hide Cell, Csv, Listed;
    if k == 0 {
      NothingListed(s[..0], |s|, showZero);
      assert s[0..] == s;
      assert "" + Csv(s, showZero) == Csv(s, showZero);
    } else {
      ListedIsCsv(s, k - 1, showZero);
      CsvStep(s, k - 1, showZero);
      ListedStep(s[..k - 1], s[k - 1], |s|, showZero);
      assert s[..k - 1] + [s[k - 1]] == s[..k];
      var before, cell := Listed(s[..k - 1], |s|, showZero), Cell(s[k - 1], showZero);
      Regroup(before, cell, if k < |s| then "," else "", Csv(s[k..], showZero));
    }
  }

  lemma NothingListed(s: seq<nat>, n: nat, showZero: bool)
    requires |s| == 0
    ensures Listed(s, n, showZero) == ""
  {
  }

  // ----- the view aggregate -----

  /** The machines' reports, one value per slot. */
  predicate Reports(ms: seq<seq<nat>>, n: nat) { forall k :: 0 <= k < |ms| ==> |ms[k]| == n && Words(ms[k]) }

  /** The sum over the machines of slot `i` of their filled series. */
  function Column(ms: seq<seq<nat>>, cumulative: bool, i: nat): nat
    requires forall k :: 0 <= k < |ms| ==> i < |ms[k]|
  {
    if |ms| == 0 then 0
    else
      var k := |ms| - 1;
      Column(ms[..k], cumulative, i) + Filled(ms[k], cumulative)[i]
  }

  function Columns32(ms: seq<seq<nat>>, cumulative: bool, n: nat): seq<nat>
    requires Reports(ms, n)
  {
    seq(n, i requires 0 <= i < n => Column(ms, cumulative, i) % WRAP)
  }

  lemma FilledWords(s: seq<nat>, cumulative: bool)
    requires Words(s)
    ensures Words(Filled(s, cumulative))
  {
    forall i | 0 <= i < |s| ensures Filled(s, cumulative)[i] < WRAP {
      PeakWord(s, i + 1);
    }
  }

  lemma {:induction false} PeakWord(s: seq<nat>, n: nat)
    requires Words(s) && n <= |s|
    ensures Peak(s, n) < WRAP
  {
    if n > 0 {
      PeakWord(s, n - 1);
    }
  }

  /** The second overload: every machine's list is printed, parsed back and added; the sums are filled and printed. */
  method ViewDayVal(ms: seq<seq<nat>>, n: nat, cumulative: bool, showZero: bool)
      returns (day: array<nat>, text: string, total: nat, valueMax: nat)
    requires Reports(ms, n) && n <= 1440
    ensures fresh(day) && day.Length == 1440
    ensures day[..n] == Filled(Columns32(ms, cumulative, n), cumulative)
    ensures text == Csv(day[..n], showZero)
    ensures total == TotalOf(Columns32(ms, cumulative, n), cumulative)
    ensures valueMax == Peak(Columns32(ms, cumulative, n), n)
  {
    hide Csv, Filled, TotalOf, Peak, Show, Columns32, Words;
    day := new nat[1440](_ => 0);
    NoColumns(cumulative, n);
    assert day[..n] == seq(n, _ => 0);
    WordsZero(day[..]);
    for k := 0 to |ms|
      invariant fresh(day) && day.Length == 1440
      invariant day[..n] == Columns32(ms[..k], cumulative, n)
      invariant Words(day[..])
    {
      ColumnStep(ms, cumulative, n, k);
      AddMachine(ms[k], cumulative, showZero, day);
    }
    assert ms[..|ms|] == ms;
    text, total, valueMax := FillAndPrint(day, n, cumulative, showZero);
    WholeList(day[..n], showZero);
  }

  /** One machine of the loop: its own series is filled and printed, and its list is added to the day. */
  method AddMachine(m: seq<nat>, cumulative: bool, showZero: bool, day: array<nat>)
    requires |m| <= day.Length && Words(m) && Words(day[..])
    modifies day
    ensures Words(day[..])
    ensures day[..|m|] == Plus(old(day[..|m|]), Filled(m, cumulative), 0)
  {
    hide Listed, Csv, Filled, TotalOf, Peak, Show, AddList, Plus;
    var n := |m|;
    var report := new nat[n](i requires 0 <= i < n => m[i]);
    assert report[..n] == m;
    var list, sum, peak := FillAndPrint(report, n, cumulative, showZero);
    ghost var filled := Filled(m, cumulative);
    WholeList(filled, showZero);
    FilledWords(m, cumulative);
    AddListExact(filled, showZero, 0, n, day[..]);
    AddTokens(list, n, day);
    PlusWords(old(day[..]), filled, n);
  }

  lemma PlusWords(acc: seq<nat>, s: seq<nat>, n: nat)
    requires Words(acc) && |s| == n <= |acc|
    ensures Words(Plus(acc, s, 0)) && Plus(acc, s, 0)[..n] == Plus(acc[..n], s, 0)
  {
  }

  lemma WordsZero(s: seq<nat>)
    requires forall k :: 0 <= k < |s| ==> s[k] == 0
    ensures Words(s)
  {
  }

  lemma NoColumns(cumulative: bool, n: nat)
    ensures Columns32([], cumulative, n) == seq(n, _ => 0)
  {
  }

  lemma WholeList(s: seq<nat>, showZero: bool)
    ensures Listed(s, |s|, showZero) == Csv(s, showZero)
  {
    hide Listed, Csv;
    ListedIsCsv(s, |s|, showZero);
    assert s[..|s|] == s && s[|s|..] == [];
    CsvEmpty([], showZero);
  }

  lemma ColumnStep(ms: seq<seq<nat>>, cumulative: bool, n: nat, k: nat)
    requires Reports(ms, n) && k < |ms|
    ensures |ms[k]| == n && Words(ms[k])
    ensures Columns32(ms[..k + 1], cumulative, n) ==
            Plus(Columns32(ms[..k], cumulative, n), Filled(ms[k], cumulative), 0)
  {
    hide Filled, Words;
    forall i | 0 <= i < n
      ensures Column(ms[..k + 1], cumulative, i) % WRAP ==
              (Column(ms[..k], cumulative, i) % WRAP + Filled(ms[k], cumulative)[i]) % WRAP
    {
      assert ms[..k + 1][..k] == ms[..k];
      AddMod(Column(ms[..k], cumulative, i), Filled(ms[k], cumulative)[i]);
    }
  }

  // ----- what the aggregate is -----

  predicate Rises(s: seq<nat>) { forall i :: 0 < i < |s| ==> s[i - 1] <= s[i] }

  lemma {:induction false} PeakOfRising(s: seq<nat>, n: nat)
    requires Rises(s) && n <= |s|
    ensures Peak(s, n) == if n == 0 then 0 else s[n - 1]
  {
    if n > 0 {
      PeakOfRising(s, n - 1);
    }
  }

  /** A running maximum does not change when it is filled again. */
  lemma FillRising(s: seq<nat>)
    requires Rises(s)
    ensures Filled(s, true) == s && TotalOf(s, true) == if |s| == 0 then 0 else s[|s| - 1]
  {
    forall i | 0 <= i < |s| ensures Filled(s, true)[i] == s[i] {
      PeakOfRising(s, i + 1);
    }
    PeakOfRising(s, |s|);
  }

  lemma {:induction false} ColumnRises(ms: seq<seq<nat>>, n: nat, i: nat)
    requires Reports(ms, n) && 0 < i < n
    ensures Column(ms, true, i - 1) <= Column(ms, true, i)
  {
    if |ms| > 0 {
      hide Words;
      var k := |ms| - 1;
      ColumnRises(ms[..k], n, i);
      FilledAt(ms[k], true, i);
    }
  }

  /** The sum of the machines' maxima. */
  function SumOfPeaks(ms: seq<seq<nat>>): nat {
    if |ms| == 0 then 0 else SumOfPeaks(ms[..|ms| - 1]) + Peak(ms[|ms| - 1], |ms[|ms| - 1]|)
  }

  lemma {:induction false} LastColumn(ms: seq<seq<nat>>, n: nat)
    requires Reports(ms, n) && n > 0
    ensures Column(ms, true, n - 1) == SumOfPeaks(ms)
  {
    if |ms| > 0 {
      hide Peak, Words;
      LastColumn(ms[..|ms| - 1], n);
    }
  }

  function Columns(ms: seq<seq<nat>>, cumulative: bool, n: nat): seq<nat>
    requires Reports(ms, n)
  {
    seq(n, i requires 0 <= i < n => Column(ms, cumulative, i))
  }

  lemma ColumnsMod(ms: seq<seq<nat>>, cumulative: bool, n: nat)
    requires Reports(ms, n)
    ensures Words(Columns32(ms, cumulative, n))
    ensures Words(Columns(ms, cumulative, n)) ==> Columns32(ms, cumulative, n) == Columns(ms, cumulative, n)
  {
    hide Column;
  }

  /** The shown series is the slot-by-slot sum of the machines' filled series, the second fill changing nothing,
      exactly when every sum fits 32 bits. */
  lemma AggregateExact(ms: seq<seq<nat>>, cumulative: bool, n: nat)
    requires Reports(ms, n)
    ensures Filled(Columns32(ms, cumulative, n), cumulative) == Columns(ms, cumulative, n) <==>
            Words(Columns(ms, cumulative, n))
  {
    hide Column, Reports;
    ColumnsMod(ms, cumulative, n);
    if Words(Columns(ms, cumulative, n)) {
      if cumulative {
        forall i | 0 < i < n ensures Columns(ms, true, n)[i - 1] <= Columns(ms, true, n)[i] { ColumnRises(ms, n, i); }
        FillRising(Columns(ms, true, n));
      }
    } else {
      FilledWords(Columns32(ms, cumulative, n), cumulative);
    }
  }

  /** For cumulative attributes whose sums fit, the total shown is the sum of the machines' maxima. */
  lemma TotalIsSumOfPeaks(ms: seq<seq<nat>>, n: nat)
    requires Reports(ms, n) && n > 0 && Words(Columns(ms, true, n))
    ensures TotalOf(Columns32(ms, true, n), true) == SumOfPeaks(ms)
  {
    hide Column, Reports, SumOfPeaks, TotalOf;
    ColumnsMod(ms, true, n);
    forall i | 0 < i < n ensures Columns(ms, true, n)[i - 1] <= Columns(ms, true, n)[i] { ColumnRises(ms, n, i); }
    FillRising(Columns(ms, true, n));
    LastColumn(ms, n);
  }

  // ----- what the text and the maximum say -----

  function Dashes(s: string): nat {
    if |s| == 0 then 0 else (if s[0] == '-' then 1 else 0) + Dashes(s[1..])
  }

  function Zeros(s: seq<nat>): nat { if |s| == 0 then 0 else (if s[0] == 0 then 1 else 0) + Zeros(s[1..]) }

  lemma {:induction false} DashesConcat(a: string, b: string)
    ensures Dashes(a + b) == Dashes(a) + Dashes(b)
  {
    if |a| == 0 {
      assert a + b == b;
    } else {
      assert (a + b)[1..] == a[1..] + b;
      DashesConcat(a[1..], b);
    }
  }

  lemma {:induction false} NoDashes(s: string)
    requires AllDigits(s)
    ensures Dashes(s) == 0
  {
    if |s| > 0 {
      NoDashes(s[1..]);
    }
  }

  /** With hidden zeros the text has a dash for every slot that is zero; with shown zeros it has none. */
  lemma {:induction false} DashesAreZeros(s: seq<nat>, showZero: bool)
    ensures Dashes(Csv(s, showZero)) == if showZero then 0 else Zeros(s)
  {
    if |s| > 0 {
      var cell, comma := Cell(s[0], showZero), if |s| > 1 then "," else "";
      DashesAreZeros(s[1..], showZero);
      DashesConcat(cell + comma, Csv(s[1..], showZero));
      DashesConcat(cell, comma);
      CommaHasNone();
      if cell != "-" {
        NoDashes(cell);
      }
      DashOfZero(s[0], showZero);
    }
  }

  lemma CommaHasNone()
    ensures Dashes(",") == 0 && Dashes("") == 0 && Dashes("-") == 1
  {
    assert ","[1..] == "" && "-"[1..] == "";
  }

  lemma DashOfZero(v: nat, showZero: bool)
    ensures Cell(v, showZero) == "-" <==> v == 0 && !showZero
    ensures Cell(v, showZero) != "-" ==> Cell(v, showZero) == Show(v) && AllDigits(Show(v))
  {
    assert IsDigit(Show(v)[0]) && !IsDigit('-');
  }

  /** The running maximum is one: no value so far is above it, and one of them reaches it. */
  lemma {:induction false} PeakIsMax(s: seq<nat>, n: nat)
    requires n <= |s|
    ensures forall i :: 0 <= i < n ==> s[i] <= Peak(s, n)
    ensures n > 0 ==> exists i :: 0 <= i < n && s[i] == Peak(s, n)
  {
    if n > 0 {
      PeakIsMax(s, n - 1);
      if Peak(s, n) == s[n - 1] {
      } else {
        assert n > 1;
      }
    }
  }

  lemma {:induction false} SumOfConcat(a: seq<nat>, b: seq<nat>)
    ensures SumOf(a + b) == SumOf(a) + SumOf(b)
  {
    if |b| == 0 {
      assert a + b == a;
    } else {
      assert (a + b)[..|a| + |b| - 1] == a + b[..|b| - 1];
      SumOfConcat(a, b[..|b| - 1]);
    }
  }

  function SumOfSums(ms: seq<seq<nat>>): nat {
    if |ms| == 0 then 0 else SumOfSums(ms[..|ms| - 1]) + SumOf(ms[|ms| - 1])
  }

  lemma {:induction false} SumAdd(a: seq<nat>, b: seq<nat>, c: seq<nat>)
    requires |a| == |b| == |c| && forall i :: 0 <= i < |a| ==> c[i] == a[i] + b[i]
    ensures SumOf(c) == SumOf(a) + SumOf(b)
  {
    if |a| > 0 {
      var n := |a| - 1;
      SumAdd(a[..n], b[..n], c[..n]);
    }
  }

  lemma {:induction false} SumMod(a: seq<nat>, b: seq<nat>)
    requires |a| == |b| && forall i :: 0 <= i < |a| ==> b[i] == a[i] % WRAP
    ensures SumOf(b) % WRAP == SumOf(a) % WRAP
  {
    if |a| > 0 {
      var n := |a| - 1;
      SumMod(a[..n], b[..n]);
      AddMod(SumOf(a[..n]), a[n]);
      AddMod(SumOf(b[..n]), b[n]);
      AddMod(a[n], SumOf(b[..n]) % WRAP);
    }
  }

  lemma {:induction false} SumOfColumns(ms: seq<seq<nat>>, n: nat)
    requires Reports(ms, n)
    ensures SumOf(Columns(ms, false, n)) == SumOfSums(ms)
  {
    if |ms| == 0 {
      SumOfZeros(Columns(ms, false, n));
    } else {
      var k := |ms| - 1;
      SumOfColumns(ms[..k], n);
      SumAdd(Columns(ms[..k], false, n), ms[k], Columns(ms, false, n));
    }
  }

  lemma {:induction false} SumOfZeros(s: seq<nat>)
    requires forall i :: 0 <= i < |s| ==> s[i] == 0
    ensures SumOf(s) == 0
  {
    if |s| > 0 {
      SumOfZeros(s[..|s| - 1]);
    }
  }

  /** The total of a view that is not cumulative is the sum of all values of all machines mod 2^32, with no bound on the
      sums. */
  lemma TotalIsSumOfSums(ms: seq<seq<nat>>, n: nat)
    requires Reports(ms, n)
    ensures TotalOf(Columns32(ms, false, n), false) == SumOfSums(ms) % WRAP
  {
    hide Column, SumOf;
    SumOfColumns(ms, n);
    SumMod(Columns(ms, false, n), Columns32(ms, false, n));
  }
}
