/** The test keys of a log configuration: their text form in the configuration page, and the saving of an edited list
    into shared memory and the `test_key_list` table. */
module TestKeys {
  import D = Decimal
  import opened Seqs

  /** `bKeyType` is a byte, `szKeyValue` holds KEY_LEN characters. */
  datatype Key = Key(kind: nat, value: string)

  const KEY_LEN := 20

  predicate Fits(k: Key) { k.kind < 256 && |k.value| <= KEY_LEN }

  predicate AllFit(keys: seq<Key>) { forall i :: 0 <= i < |keys| ==> Fits(keys[i]) }

  // ----- printing -----

  function One(k: Key): string { D.Show(k.kind) + "~" + k.value }

  function Print(keys: seq<Key>): string {
    if |keys| == 0 then ""
    else if |keys| == 1 then One(keys[0])
    else One(keys[0]) + ("|" + Print(keys[1..]))
  }

  /** The printing loop of `GetLogConfigTestKey`; its two branches have the same one. */
  method PrintKeys(keys: seq<Key>) returns (text: string)
    ensures text == Print(keys)
  {
    hide Print, One;
    text := "";
    var i := 0;
    EmptyText();
    assert keys[0..] == keys;
    while i < |keys|
      invariant 0 <= i <= |keys|
      invariant 0 <= i < |keys| || |keys| == 0
      invariant i < |keys| ==> Print(keys) == text + Print(keys[i..])
      invariant |keys| == 0 ==> text == ""
    {
      PrintStep(keys, i);
      Assoc(text, One(keys[i]), "|" + Print(keys[i + 1..]));
      Assoc(text + One(keys[i]), "|", Print(keys[i + 1..]));
      text := text + One(keys[i]);
      if i + 1 >= |keys| {
        return;
      }
      text := text + "|";
      i := i + 1;
    }
  }

  lemma EmptyText()
    ensures Print([]) == ""
  {
  }

  lemma PrintStep(keys: seq<Key>, i: nat)
    requires i < |keys|
    ensures Print(keys[i..]) == if i + 1 == |keys| then One(keys[i]) else One(keys[i]) + ("|" + Print(keys[i + 1..]))
  {
    assert keys[i..][1..] == keys[i + 1..];
  }

  // ----- parsing -----

  /** Where `c` first occurs in `s`, or the length of `s`. */
  function Find(s: string, c: char): (n: nat)
    ensures n <= |s| && c !in s[..n] && (n < |s| ==> s[n] == c)
  {
    if |s| == 0 || s[0] == c then 0
    else
      var n := 1 + Find(s[1..], c);
      assert s[..n] == [s[0]] + s[1..][..n - 1];
      n
  }

  lemma {:induction false} FindUnique(s: string, c: char, n: nat)
    requires n <= |s| && c !in s[..n] && (n < |s| ==> s[n] == c)
    ensures Find(s, c) == n
  {
    if n > 0 {
      assert s[..n] == [s[0]] + s[1..][..n - 1];
      FindUnique(s[1..], c, n - 1);
    }
  }

  /** What `strtok_r` skips before a token. */
  function SkipBars(s: string): (r: string)
    ensures |r| <= |s| && (|r| > 0 ==> r[0] != '|')
  {
    if |s| > 0 && s[0] == '|' then SkipBars(s[1..]) else s
  }

  predicate IsSpace(c: char) { c == ' ' || '\t' <= c <= '\r' }

  /** `atoi`, of text whose number fits an `int`. */
  function Atoi(s: string): int {
    if |s| > 0 && IsSpace(s[0]) then Atoi(s[1..])
    else if |s| > 0 && s[0] == '-' then 0 - Digits(s[1..])
    else if |s| > 0 && s[0] == '+' then Digits(s[1..])
    else Digits(s)
  }

  function Digits(s: string): nat { D.Value(s[..D.Span(s)]) }

  function Take(s: string, n: nat): string { if |s| <= n then s else s[..n] }

  /** One token with a separator in it. */
  function ReadKey(tok: string): (k: Key)
    requires Find(tok, '~') < |tok|
    ensures Fits(k)
  {
    var t := Find(tok, '~');
    Key(Atoi(tok[..t]) % 256, Take(tok[t + 1..], KEY_LEN))
  }

  /** The keys in `s`, at most `room` of them. */
  function Parse(s: string, room: nat): seq<Key>
    decreases |s|
  {
    var s1 := SkipBars(s);
    if room == 0 || |s1| == 0 then []
    else
      var n := Find(s1, '|');
      if Find(s1[..n], '~') == n then Parse(s1[n..], room)
      else [ReadKey(s1[..n])] + Parse(s1[n..], room - 1)
  }

  lemma ParseStep(s: string, room: nat)
    requires room > 0 && |s| > 0 && s[0] != '|'
    ensures 0 < Find(s, '|') <= |s| && Find(s[..Find(s, '|')], '~') <= Find(s, '|')
    ensures var n := Find(s, '|');
            Parse(s, room) == if Find(s[..n], '~') == n then Parse(s[n..], room)
                              else [ReadKey(s[..n])] + Parse(s[n..], room - 1)
  {
    assert SkipBars(s) == s;
  }

  /** The parsing loop of `SaveLogConfigTestKey`. */
  method ParseKeys(text: string, max: nat) returns (keys: seq<Key>)
    ensures keys == Parse(text, max)
  {
    hide Parse, Find, SkipBars, ReadKey;
    keys := [];
    var rest := text;
    while |keys| < max
      invariant |keys| <= max
      invariant Parse(text, max) == keys + Parse(rest, max - |keys|)
      decreases |rest|
    {
      ParseSkips(rest, max - |keys|);
      rest := SkipBars(rest);
      if |rest| == 0 {
        return;
      }
      ParseStep(rest, max - |keys|);
      var n := Find(rest, '|');
      var tok := rest[..n];
      rest := rest[n..];
      if Find(tok, '~') == |tok| {
        continue;
      }
      Assoc(keys, [ReadKey(tok)], Parse(rest, max - |keys| - 1));
      keys := keys + [ReadKey(tok)];
    }
    ParseSkips(rest, 0);
  }

  lemma ParseSkips(s: string, room: nat)
    ensures SkipBars(SkipBars(s)) == SkipBars(s)
    ensures Parse(s, room) == Parse(SkipBars(s), room)
    ensures room == 0 || SkipBars(s) == "" ==> Parse(SkipBars(s), room) == []
  {
  }

  // ----- the round trip -----

  predicate NoBars(keys: seq<Key>) { forall i :: 0 <= i < |keys| ==> '|' !in keys[i].value }

  /** The printed text of one key, found again in front of a separator or the end. */
  lemma TokenBack(k: Key, rest: string)
    requires '|' !in k.value
    requires |rest| > 0 ==> rest[0] == '|'
    ensures SkipBars(One(k) + rest) == One(k) + rest
    ensures Find(One(k) + rest, '|') == |One(k)|
  {
    var s := One(k) + rest;
    assert D.IsDigit(s[0]);
    assert s[..|One(k)|] == One(k);
    forall i | 0 <= i < |One(k)| ensures One(k)[i] != '|' {
      if i < |D.Show(k.kind)| {
        assert D.IsDigit(D.Show(k.kind)[i]);
      }
    }
    FindUnique(s, '|', |One(k)|);
  }

  /** What a token gives: the type as a byte and the first 20 characters of the value. */
  lemma KeyBack(k: Key)
    ensures Find(One(k), '~') == |D.Show(k.kind)| < |One(k)|
    ensures ReadKey(One(k)) == Key(k.kind % 256, if |k.value| <= 20 then k.value else k.value[..20])
  {
    var s, n := One(k), |D.Show(k.kind)|;
    assert s[..n] == D.Show(k.kind) && s[n] == '~' && s[n + 1..] == k.value;
    assert forall i :: 0 <= i < n ==> D.IsDigit(s[..n][i]);
    FindUnique(s, '~', n);
    D.ReadOfShow(k.kind, "", k.kind);
    assert D.Show(k.kind) + "" == D.Show(k.kind);
    AtoiShow(k.kind);
  }

  lemma AtoiShow(n: nat)
    ensures Atoi(D.Show(n)) == n
  {
    var s := D.Show(n);
    assert D.IsDigit(s[0]);
    D.ReadOfShow(n, "", n);
    assert s + "" == s && s[..|s|] == s;
    D.ValueOfShow(n);
  }

  /** The parser reads back the printed keys, as many as there is room for. */
  lemma {:induction false} ParsePrint(keys: seq<Key>, room: nat)
    requires AllFit(keys) && NoBars(keys)
    ensures Parse(Print(keys), room) == if |keys| <= room then keys else keys[..room]
  {
    hide One, ReadKey, Find;
    if room == 0 {
      ParseSkips(Print(keys), 0);
    } else if |keys| > 0 {
      var k, more := keys[0], keys[1..];
      var rest := if |more| == 0 then "" else "|" + Print(more);
      assert Print(keys) == One(k) + rest by {
        assert |more| == 0 ==> One(k) + "" == One(k);
      }
      TokenBack(k, rest);
      KeyBack(k);
      ParseOne(k, rest, room);
      ParsePrint(more, room - 1);
      if |more| > 0 {
        BarFirst(Print(more), room - 1);
      } else {
        assert Parse("", room - 1) == [];
      }
    } else {
      assert SkipBars("") == "";
    }
  }

  lemma ParseOne(k: Key, rest: string, room: nat)
    requires room > 0
    requires SkipBars(One(k) + rest) == One(k) + rest && Find(One(k) + rest, '|') == |One(k)|
    requires Find(One(k), '~') < |One(k)| && ReadKey(One(k)) == k
    ensures Parse(One(k) + rest, room) == [k] + Parse(rest, room - 1)
  {
    hide One, ReadKey, Find, SkipBars, Parse;
    var s, n := One(k) + rest, |One(k)|;
    assert s[..n] == One(k) && s[n..] == rest;
    ParseStep(s, room);
  }

  lemma BarFirst(s: string, room: nat)
    ensures Parse("|" + s, room) == Parse(s, room)
  {
    assert ("|" + s)[1..] == s;
    assert SkipBars("|" + s) == SkipBars(s);
    hide SkipBars, Parse;
    ParseSkips("|" + s, room);
    ParseSkips(s, room);
  }

  /** No parsed value holds a separator. */
  lemma {:induction false} ParsedNoBars(s: string, room: nat)
    ensures NoBars(Parse(s, room)) && AllFit(Parse(s, room)) && |Parse(s, room)| <= room
    decreases |s|
  {
    hide Parse, Find, SkipBars;
    var s1 := SkipBars(s);
    ParseSkips(s, room);
    if room > 0 && |s1| > 0 {
      ParseStep(s1, room);
      var n := Find(s1, '|');
      if Find(s1[..n], '~') == n {
        ParsedNoBars(s1[n..], room);
      } else {
        ParsedNoBars(s1[n..], room - 1);
        var k := ReadKey(s1[..n]);
        forall i | 0 <= i < |k.value| ensures k.value[i] != '|' {
          assert k.value[i] == s1[..n][Find(s1[..n], '~') + 1 + i];
        }
      }
    }
  }

  /** What `SaveLogConfigTestKey` reads from a text: its own buffer is cut at max * 40 - 1 characters. */
  function Read(text: string, max: nat): seq<Key>
    requires max > 0
  {
    Parse(Take(text, max * (KEY_LEN + 20) - 1), max)
  }

  lemma {:induction false} PrintLength(keys: seq<Key>)
    requires AllFit(keys)
    ensures |Print(keys)| <= 25 * |keys|
  {
    if |keys| > 0 {
      ShortType(keys[0].kind);
      PrintLength(keys[1..]);
    }
  }

  lemma ShortType(n: nat)
    requires n < 256
    ensures |D.Show(n)| <= 3
  {
    assert n >= 100 ==> |D.Show(n / 10 / 10)| == 1;
  }

  /** For every list that fits shared memory, the parser inverts the printer exactly when no value holds a separator. */
  lemma RoundTripExact(keys: seq<Key>, max: nat)
    requires max > 0 && AllFit(keys) && |keys| <= max
    ensures Read(Print(keys), max) == keys <==> NoBars(keys)
  {
    hide Parse, Print, NoBars;
    PrintLength(keys);
    ParsedNoBars(Print(keys), max);
    if NoBars(keys) {
      ParsePrint(keys, max);
    }
  }

  // ----- saving -----

  /** A row of `test_key_list`. */
  datatype Row = Row(config: int, key: Key, live: bool)

  /** The keys a configuration has in the table. */
  function Live(table: seq<Row>, config: int): set<Key> {
    set r | r in table && r.live && r.config == config :: r.key
  }

  function AsSet(keys: seq<Key>): set<Key> { set k | k in keys }

  /** The keys of "select ... where xrk_status=0 and config_id=...", in the order of the table. */
  function LiveKeys(table: seq<Row>, config: int): seq<Key> {
    if |table| == 0 then []
    else
      var n := |table| - 1;
      LiveKeys(table[..n], config) + (if table[n].live && table[n].config == config then [table[n].key] else [])
  }

  lemma {:induction false} LiveKeysAreLive(table: seq<Row>, config: int)
    ensures AsSet(LiveKeys(table, config)) == Live(table, config)
  {
    if |table| > 0 {
      var n := |table| - 1;
      LiveKeysAreLive(table[..n], config);
      assert table == table[..n] + [table[n]];
      assert forall r :: r in table <==> r in table[..n] || r == table[n];
      var one := if table[n].live && table[n].config == config then [table[n].key] else [];
      assert AsSet(LiveKeys(table, config)) == AsSet(LiveKeys(table[..n], config)) + AsSet(one);
      forall k | k in Live(table, config) ensures k in Live(table[..n], config) + AsSet(one) {
        var r :| r in table && r.live && r.config == config && r.key == k;
      }
      assert Live(table, config) == Live(table[..n], config) + AsSet(one);
    }
  }

  method SelectLive(table: seq<Row>, config: int) returns (keys: seq<Key>)
    ensures keys == LiveKeys(table, config) && AsSet(keys) == Live(table, config)
  {
    keys := [];
    for n := 0 to |table|
      invariant keys == LiveKeys(table[..n], config)
    {
      assert table[..n + 1][..n] == table[..n];
      if table[n].live && table[n].config == config {
        keys := keys + [table[n].key];
      }
    }
    assert table[..|table|] == table;
    LiveKeysAreLive(table, config);
  }

  /** The update statement: every row of that key is marked deleted. */
  function MarkDeleted(table: seq<Row>, config: int, key: Key): (r: seq<Row>)
    ensures |r| == |table|
    ensures forall i :: 0 <= i < |r| ==>
      r[i] == if table[i].config == config && table[i].key == key then table[i].(live := false) else table[i]
  {
    if |table| == 0 then []
    else
      var row := table[0];
      [if row.config == config && row.key == key then row.(live := false) else row]
      + MarkDeleted(table[1..], config, key)
  }

  lemma MarkedLive(table: seq<Row>, config: int, key: Key, c: int)
    ensures Live(MarkDeleted(table, config, key), c) ==
            if c == config then Live(table, c) - {key} else Live(table, c)
  {
    var after := MarkDeleted(table, config, key);
    forall k | k in Live(table, c) && !(c == config && k == key) ensures k in Live(after, c) {
      var i :| 0 <= i < |table| && table[i].live && table[i].config == c && table[i].key == k;
      assert after[i] == table[i] && after[i] in after;
    }
    forall k | k in Live(after, c) ensures k in Live(table, c) && !(c == config && k == key) {
      var i :| 0 <= i < |after| && after[i].live && after[i].config == c && after[i].key == k;
      assert after[i] == table[i] && table[i] in table;
    }
  }

  lemma InsertedLive(table: seq<Row>, config: int, key: Key, c: int)
    ensures Live(table + [Row(config, key, true)], c) ==
            if c == config then Live(table, c) + {key} else Live(table, c)
  {
    var row := Row(config, key, true);
    assert forall r :: r in table + [row] <==> r in table || r == row;
  }

  method Holds(keys: seq<Key>, key: Key) returns (found: bool)
    ensures found <==> key in AsSet(keys)
  {
    var j := 0;
    while j < |keys|
      invariant 0 <= j <= |keys|
      invariant forall i :: 0 <= i < j ==> keys[i] != key
    {
      if keys[j] == key {
        return true;
      }
      j := j + 1;
    }
    return false;
  }

  lemma OneMore(keys: seq<Key>, i: nat)
    requires i < |keys|
    ensures AsSet(keys[..i + 1]) == AsSet(keys[..i]) + {keys[i]}
  {
    assert keys[..i + 1] == keys[..i] + [keys[i]];
  }

  /** A log configuration as the page sees it, and the table. */
  class ConfigStore {
    /** Whether `GetSlogConfig` finds the configuration in shared memory. */
    var present: bool
    var keys: seq<Key>
    var configSeq: nat
    var table: seq<Row>

    constructor (present: bool, keys: seq<Key>, configSeq: nat, table: seq<Row>)
      ensures this.present == present && this.keys == keys && this.configSeq == configSeq && this.table == table
    {
      this.present, this.keys, this.configSeq, this.table := present, keys, configSeq, table;
    }

    /** `GetLogConfigTestKey`: the list in shared memory, or the live rows where it is not there yet. */
    method GetLogConfigTestKey(config: int) returns (text: string)
      ensures text == Print(if present then keys else LiveKeys(table, config))
    {
      if present {
        text := PrintKeys(keys);
      } else {
        var rows := SelectLive(table, config);
        text := PrintKeys(rows);
      }
    }

    /** The delete loop: old keys that the new list lacks. */
    method DeleteMissing(config: int, was: seq<Key>, now: seq<Key>) returns (changed: bool)
      modifies this`table
      ensures Live(table, config) == old(Live(table, config)) - (AsSet(was) - AsSet(now))
      ensures forall c :: c != config ==> Live(table, c) == old(Live(table, c))
      ensures changed <==> AsSet(was) - AsSet(now) != {}
    {
      hide Live, AsSet, MarkDeleted;
      changed := false;
      var i := 0;
      NothingYet(was);
      while i < |was|
        invariant 0 <= i <= |was|
        invariant Live(table, config) == old(Live(table, config)) - (AsSet(was[..i]) - AsSet(now))
        invariant forall c :: c != config ==> Live(table, c) == old(Live(table, c))
        invariant changed <==> AsSet(was[..i]) - AsSet(now) != {}
      {
        OneMore(was, i);
        var found := Holds(now, was[i]);
        if !found {
          forall c ensures Live(MarkDeleted(table, config, was[i]), c) ==
                           if c == config then Live(table, c) - {was[i]} else Live(table, c) {
            MarkedLive(table, config, was[i], c);
          }
          table := MarkDeleted(table, config, was[i]);
          changed := true;
          assert was[i] in AsSet(was[..i + 1]) - AsSet(now);
        }
        i := i + 1;
      }
      assert was[..|was|] == was;
    }

    /** The insert loop: new keys that the old list lacks. */
    method InsertNew(config: int, was: seq<Key>, now: seq<Key>) returns (changed: bool)
      modifies this`table
      ensures Live(table, config) == old(Live(table, config)) + (AsSet(now) - AsSet(was))
      ensures forall c :: c != config ==> Live(table, c) == old(Live(table, c))
      ensures changed <==> AsSet(now) - AsSet(was) != {}
    {
      hide Live, AsSet;
      changed := false;
      var i := 0;
      NothingYet(now);
      while i < |now|
        invariant 0 <= i <= |now|
        invariant Live(table, config) == old(Live(table, config)) + (AsSet(now[..i]) - AsSet(was))
        invariant forall c :: c != config ==> Live(table, c) == old(Live(table, c))
        invariant changed <==> AsSet(now[..i]) - AsSet(was) != {}
      {
        OneMore(now, i);
        var found := Holds(was, now[i]);
        if !found {
          var row := Row(config, now[i], true);
          forall c ensures Live(table + [row], c) ==
                           if c == config then Live(table, c) + {now[i]} else Live(table, c) {
            InsertedLive(table, config, now[i], c);
          }
          table := table + [row];
          changed := true;
          assert now[i] in AsSet(now[..i + 1]) - AsSet(was);
        }
        i := i + 1;
      }
      assert now[..|now|] == now;
    }

    /** `SaveLogConfigTestKey`. */
    method SaveLogConfigTestKey(config: int, text: string, max: nat)
      requires max > 0
      modifies this
      ensures present == old(present) && keys == if present then Read(text, max) else old(keys)
      ensures var was := if present then AsSet(old(keys)) else {};
              Live(table, config) == Saved(old(Live(table, config)), was, AsSet(Read(text, max)))
      ensures forall c :: c != config ==> Live(table, c) == old(Live(table, c))
      ensures configSeq == if present && AsSet(old(keys)) != AsSet(keys) then (old(configSeq) + 1) % 0x1_0000_0000
                           else old(configSeq)
    {
      var now := ParseKeys(Take(text, max * (KEY_LEN + 20) - 1), max);
      hide Live, Parse;
      var was := if present then keys else [];
      if present {
        keys := now;
      }
      var deleted := DeleteMissing(config, was, now);
      var inserted := InsertNew(config, was, now);
      assert AsSet([]) == {};
      assert deleted || inserted <==> AsSet(was) != AsSet(now);
      if (deleted || inserted) && present {
        configSeq := (configSeq + 1) % 0x1_0000_0000;
      }
    }
  }

  lemma NothingYet(keys: seq<Key>)
    ensures AsSet(keys[..0]) == {}
  {
  }

  /** The live keys that saving leaves, from those it finds, the shared-memory list and the new list. */
  function Saved(live: set<Key>, was: set<Key>, now: set<Key>): set<Key> {
    live - (was - now) + (now - was)
  }

  /** Saving makes the table's live keys the new list exactly when the keys it does not touch were right: those live
      outside the old list are in the new one, and those in both lists are live. */
  lemma SavedExact(live: set<Key>, was: set<Key>, now: set<Key>)
    ensures Saved(live, was, now) == now <==> live - was <= now && was * now <= live
  {
    var saved := Saved(live, was, now);
    if saved == now {
      forall k | k in live - was ensures k in now { assert k in saved; }
      forall k | k in was * now ensures k in live { assert k in saved; }
    }
    if live - was <= now && was * now <= live {
      assert forall k :: k in saved <==> k in now;
    }
  }

  /** Saves of one configuration that stays in shared memory: its list and its live keys. */
  function Saves(live: set<Key>, keys: seq<Key>, texts: seq<string>, max: nat): (r: (set<Key>, seq<Key>))
    requires max > 0
    decreases |texts|
  {
    if |texts| == 0 then (live, keys)
    else
      var now := Read(texts[0], max);
      Saves(Saved(live, AsSet(keys), AsSet(now)), now, texts[1..], max)
  }

  /** Where the table agrees with the list before, it agrees after every run of saves. */
  lemma {:induction false} SavesAgree(live: set<Key>, keys: seq<Key>, texts: seq<string>, max: nat)
    requires max > 0 && live == AsSet(keys)
    ensures Saves(live, keys, texts, max).0 == AsSet(Saves(live, keys, texts, max).1)
    decreases |texts|
  {
    hide AsSet, Read;
    if |texts| > 0 {
      var now := Read(texts[0], max);
      SavedExact(live, AsSet(keys), AsSet(now));
      SavesAgree(Saved(live, AsSet(keys), AsSet(now)), now, texts[1..], max);
    }
  }

  /** Saving the text of a list that reads back is no change: the same list, the same live keys. */
  lemma SaveUnedited(live: set<Key>, keys: seq<Key>, max: nat)
    requires max > 0 && AllFit(keys) && |keys| <= max && NoBars(keys)
    ensures Read(Print(keys), max) == keys
    ensures Saved(live, AsSet(keys), AsSet(Read(Print(keys), max))) == live
  {
    hide Read, Print;
    RoundTripExact(keys, max);
  }

  /** A value with a bar comes back cut. */
  lemma BarIsCut()
    ensures Read(Print([Key(1, "a|b")]), 10) != [Key(1, "a|b")]
  {
    hide Read, Print;
    assert [Key(1, "a|b")][0].value[1] == '|';
    RoundTripExact([Key(1, "a|b")], 10);
  }

  lemma PrintedExample()
    ensures Print([Key(1, "a"), Key(2, "b")]) == "1~a|2~b"
  {
    assert D.Show(1) == "1" && D.Show(2) == "2";
    assert [Key(1, "a"), Key(2, "b")][1..] == [Key(2, "b")];
    assert One(Key(1, "a")) == "1~a" && One(Key(2, "b")) == "2~b";
  }

  /** A token without a separator is passed over. */
  lemma NoTilde(tok: string, s: string, room: nat)
    requires |tok| > 0 && '~' !in tok && '|' !in tok
    ensures Parse(tok + "|" + s, room) == Parse(s, room)
  {
    var t := tok + "|" + s;
    assert t[..|tok|] == tok && t[|tok|] == '|' && t[|tok|..] == "|" + s;
    FindUnique(t, '|', |tok|);
    FindUnique(tok, '~', |tok|);
    assert t[0] == tok[0] && tok[0] in tok;
    hide Find, SkipBars, Parse, ReadKey;
    if room == 0 {
      ParseSkips(t, 0);
      ParseSkips(s, 0);
    } else {
      ParseStep(t, room);
      BarFirst(s, room);
    }
  }

  /** `atoi` passes over white space, takes one sign and reads digits up to anything else. */
  lemma {:induction false} AtoiReads(spaces: string, sign: string, n: nat, rest: string)
    requires forall i :: 0 <= i < |spaces| ==> spaces[i] == ' ' || '\t' <= spaces[i] <= '\r'
    requires sign == "" || sign == "-" || sign == "+"
    requires |rest| > 0 ==> !D.IsDigit(rest[0])
    ensures Atoi(spaces + (sign + (D.Show(n) + rest))) == if sign == "-" then -(n as int) else n
  {
    var text := D.Show(n) + rest;
    if |spaces| > 0 {
      var s := spaces + (sign + text);
      assert s[0] == spaces[0] && s[1..] == spaces[1..] + (sign + text);
      AtoiReads(spaces[1..], sign, n, rest);
    } else {
      assert spaces + (sign + text) == sign + text;
      D.ReadOfShow(n, rest, n);
      D.ValueOfShow(n);
      assert text[..|D.Show(n)|] == D.Show(n);
      assert Digits(text) == n;
      if sign == "" {
        assert sign + text == text && D.IsDigit(text[0]);
      } else {
        assert (sign + text)[1..] == text && (sign + text)[0] == sign[0];
      }
    }
  }
}
