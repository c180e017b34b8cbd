/** The string escaping of the Json class: four in-place find/replace passes each way
    (the escapes are those of section 7 of RFC 8259 for backslash, quote, CR and LF). */
module JsonEscape {
  import opened Seqs

  // ----- encode: one pass -----

  /** Every `c` becomes a backslash and `letter`. */
  function EscapePass(s: string, c: char, letter: char): string
  {
    if |s| == 0 then "" else (if s[0] == c then ['\\', letter] else [s[0]]) + EscapePass(s[1..], c, letter)
  }

  lemma EscapePassStep(s: string, c: char, letter: char)
    requires |s| > 0
    ensures EscapePass(s, c, letter) == (if s[0] == c then ['\\', letter] else [s[0]]) + EscapePass(s[1..], c, letter)
  {
  }

  lemma {:induction false} EscapePassConcat(s: string, t: string, c: char, letter: char)
    ensures EscapePass(s + t, c, letter) == EscapePass(s, c, letter) + EscapePass(t, c, letter)
  {
    if |s| == 0 {
      assert s + t == t;
    } else {
      hide EscapePass;
      EscapePassConcat(s[1..], t, c, letter);
      assert (s + t)[1..] == s[1..] + t;
      EscapePassStep(s, c, letter);
      EscapePassStep(s + t, c, letter);
      var head := if s[0] == c then ['\\', letter] else [s[0]];
      Assoc(head, EscapePass(s[1..], c, letter), EscapePass(t, c, letter));
    }
  }

  lemma {:induction false} EscapePassNone(s: string, c: char, letter: char)
    requires c !in s
    ensures EscapePass(s, c, letter) == s
  {
    if |s| > 0 {
      EscapePassNone(s[1..], c, letter);
    }
  }

  /** `std::string::find` of one character; the length stands for `npos`. */
  function Find(s: string, c: char, from: nat): (r: nat)
    requires from <= |s|
    ensures from <= r <= |s|
    ensures c !in s[from..r] && (r < |s| ==> s[r] == c)
    decreases |s| - from
  {
    if from == |s| || s[from] == c then from
    else
      var r := Find(s, c, from + 1);
      assert s[from..r] == [s[from]] + s[from + 1..r];
      r
  }

  /** One find/replace loop of `encode`. */
  method EncodePass(src0: string, c: char, letter: char) returns (src: string)
    ensures src == EscapePass(src0, c, letter)
  {
    hide EscapePass, Find;
    src := src0;
    var pos := Find(src, c, 0);
    ghost var i := pos;
    assert src0[0..pos] == src0[..pos];
    EscapePassNone(src0[..pos], c, letter);
    while pos < |src|
      invariant i <= |src0| && pos == |EscapePass(src0[..i], c, letter)|
      invariant src == EscapePass(src0[..i], c, letter) + src0[i..]
      invariant i < |src0| ==> src0[i] == c
      decreases |src0| - i
    {
      ghost var done := EscapePass(src0[..i], c, letter);
      src := src[..pos] + ['\\', letter] + src[pos + 1..];
      assert src == done + ['\\', letter] + src0[i + 1..];
      var pos0 := pos + 2;
      pos := Find(src, c, pos0);
      ghost var i' := i + 1 + (pos - pos0);
      assert src[pos0..pos] == src0[i + 1..i'];
      EscapeTo(src0, i, i', c, letter);
      assert src0[i + 1..] == src0[i + 1..i'] + src0[i'..];
      i := i';
    }
    assert src0[..i] == src0;
  }

  lemma EscapeTo(s: string, i: nat, j: nat, c: char, letter: char)
    requires i < j <= |s| && s[i] == c && c !in s[i + 1..j]
    ensures EscapePass(s[..j], c, letter) == EscapePass(s[..i], c, letter) + ['\\', letter] + s[i + 1..j]
  {
    assert s[..j] == s[..i] + ([c] + s[i + 1..j]);
    EscapePassConcat(s[..i], [c] + s[i + 1..j], c, letter);
    EscapePassNone(s[i + 1..j], c, letter);
    assert ([c] + s[i + 1..j])[1..] == s[i + 1..j];
  }

  // ----- encode: the four passes -----

  function EscapeChar(c: char): string {
    if c == '\\' then "\\\\" else if c == '\r' then "\\r" else if c == '\n' then "\\n"
    else if c == '\"' then "\\\"" else [c]
  }

  predicate NeedsEscape(c: char) { c == '\\' || c == '\r' || c == '\n' || c == '\"' }

  /** The escape map applied once, left to right. */
  function Escape(s: string): string { if |s| == 0 then "" else EscapeChar(s[0]) + Escape(s[1..]) }

  function FourPasses(s: string): string {
    EscapePass(EscapePass(EscapePass(EscapePass(s, '\\', '\\'), '\r', 'r'), '\n', 'n'), '\"', '\"')
  }

  /** The in-place `encode`. */
  method Encode(src0: string) returns (src: string)
    ensures src == Escape(src0)
  {
    hide *;
    src := EncodePass(src0, '\\', '\\');
    src := EncodePass(src, '\r', 'r');
    src := EncodePass(src, '\n', 'n');
    src := EncodePass(src, '\"', '\"');
    FourPassesDef(src0);
    PassesAreEscape(src0);
  }

  lemma FourPassesDef(s: string)
    ensures FourPasses(s) ==
            EscapePass(EscapePass(EscapePass(EscapePass(s, '\\', '\\'), '\r', 'r'), '\n', 'n'), '\"', '\"')
  {
  }

  lemma FourPassesConcat(s: string, t: string)
    ensures FourPasses(s + t) == FourPasses(s) + FourPasses(t)
  {
    hide EscapePass;
    var s1, t1 := EscapePass(s, '\\', '\\'), EscapePass(t, '\\', '\\');
    var s2, t2 := EscapePass(s1, '\r', 'r'), EscapePass(t1, '\r', 'r');
    var s3, t3 := EscapePass(s2, '\n', 'n'), EscapePass(t2, '\n', 'n');
    EscapePassConcat(s, t, '\\', '\\');
    EscapePassConcat(s1, t1, '\r', 'r');
    EscapePassConcat(s2, t2, '\n', 'n');
    EscapePassConcat(s3, t3, '\"', '\"');
  }

  lemma PassOne(c: char, letter: char, x: char)
    ensures EscapePass([x], c, letter) == if x == c then ['\\', letter] else [x]
  {
    assert [x][1..] == [];
  }

  lemma PassTwo(c: char, letter: char, x: char, y: char)
    requires x != c && y != c
    ensures EscapePass([x, y], c, letter) == [x, y]
  {
    EscapePassNone([x, y], c, letter);
  }

  lemma FourPassesChar(c: char)
    ensures FourPasses([c]) == EscapeChar(c)
  {
    hide EscapePass;
    PassOne('\\', '\\', c);
    PassOne('\r', 'r', c);
    PassOne('\n', 'n', c);
    PassOne('\"', '\"', c);
    if c == '\\' {
      PassTwo('\r', 'r', '\\', '\\');
      PassTwo('\n', 'n', '\\', '\\');
      PassTwo('\"', '\"', '\\', '\\');
    } else if c == '\r' {
      PassTwo('\n', 'n', '\\', 'r');
      PassTwo('\"', '\"', '\\', 'r');
    } else if c == '\n' {
      PassTwo('\"', '\"', '\\', 'n');
    }
  }

  /** The four successive passes are one left-to-right escape map. */
  lemma {:induction false} PassesAreEscape(s: string)
    ensures FourPasses(s) == Escape(s)
  {
    if |s| > 0 {
      hide FourPasses, EscapeChar;
      assert s == [s[0]] + s[1..];
      FourPassesConcat([s[0]], s[1..]);
      FourPassesChar(s[0]);
      PassesAreEscape(s[1..]);
    }
  }

  // ----- properties of the map -----

  predicate Plain(s: string) { forall i :: 0 <= i < |s| ==> !NeedsEscape(s[i]) }

  /** Escaping keeps a string exactly when it has nothing to escape, and lengthens it otherwise. */
  lemma {:induction false} EscapeFixpoint(s: string)
    ensures |Escape(s)| >= |s|
    ensures Plain(s) ==> Escape(s) == s
    ensures !Plain(s) ==> |Escape(s)| > |s|
  {
    if |s| > 0 {
      EscapeFixpoint(s[1..]);
      assert Plain(s) <==> !NeedsEscape(s[0]) && Plain(s[1..]) by {
        if !NeedsEscape(s[0]) && Plain(s[1..]) {
          forall i | 0 <= i < |s| ensures !NeedsEscape(s[i]) {
            assert i > 0 ==> s[i] == s[1..][i - 1];
          }
        }
      }
    }
  }

  /** Escaping is injective, so distinct keys stay distinct. */
  lemma {:induction false} EscapeInjective(s: string, t: string)
    requires Escape(s) == Escape(t)
    ensures s == t
    decreases |s|
  {
    if |s| == 0 || |t| == 0 {
      EscapeFixpoint(s);
      EscapeFixpoint(t);
    } else {
      hide EscapeChar;
      CodeHead(s[0], t[0], Escape(s[1..]), Escape(t[1..]));
      EscapeInjective(s[1..], t[1..]);
      assert s == [s[0]] + s[1..] && t == [t[0]] + t[1..];
    }
  }

  lemma CodeHead(c: char, d: char, u: string, v: string)
    requires EscapeChar(c) + u == EscapeChar(d) + v
    ensures c == d && u == v
  {
    var x, y := EscapeChar(c) + u, EscapeChar(d) + v;
    assert x[0] == y[0];
    if x[0] == '\\' {
      assert x[1] == y[1];
      assert u == x[2..] && v == y[2..];
    } else {
      assert u == x[1..] && v == y[1..];
    }
  }

  // ----- decode: one pass -----

  predicate PairAt(s: string, i: nat, letter: char) { i + 1 < |s| && s[i] == '\\' && s[i + 1] == letter }

  /** Every backslash-`letter` pair, found left to right, becomes `c`. */
  function UnescapePass(s: string, letter: char, c: char): string
  {
    if |s| == 0 then ""
    else if PairAt(s, 0, letter) then [c] + UnescapePass(s[2..], letter, c)
    else [s[0]] + UnescapePass(s[1..], letter, c)
  }

  predicate NoPairs(s: string, from: nat, to: nat, letter: char) {
    forall k: nat :: from <= k < to ==> !PairAt(s, k, letter)
  }

  /** `std::string::find` of the two-character pattern; the length stands for `npos`. */
  function FindPair(s: string, letter: char, from: nat): (r: nat)
    requires from <= |s|
    ensures from <= r <= |s|
    ensures r < |s| ==> PairAt(s, r, letter)
    ensures NoPairs(s, from, r, letter)
    decreases |s| - from
  {
    if from == |s| || PairAt(s, from, letter) then from else FindPair(s, letter, from + 1)
  }

  lemma UnescapeStep(s: string, letter: char, c: char)
    ensures |s| == 0 ==> UnescapePass(s, letter, c) == ""
    ensures PairAt(s, 0, letter) ==> UnescapePass(s, letter, c) == [c] + UnescapePass(s[2..], letter, c)
    ensures |s| > 0 && !PairAt(s, 0, letter) ==>
              UnescapePass(s, letter, c) == [s[0]] + UnescapePass(s[1..], letter, c)
  {
  }

  lemma {:induction false} UnescapeSkip(s: string, n: nat, letter: char, c: char)
    requires n <= |s|
    requires NoPairs(s, 0, n, letter)
    ensures UnescapePass(s, letter, c) == s[..n] + UnescapePass(s[n..], letter, c)
  {
    hide UnescapePass;
    if n == 0 {
      assert s[0..] == s;
      assert s[..0] + UnescapePass(s, letter, c) == UnescapePass(s, letter, c);
    } else {
      assert !PairAt(s, 0, letter);
      UnescapeStep(s, letter, c);
      assert NoPairs(s[1..], 0, n - 1, letter) by {
        forall k: nat | k < n - 1 ensures !PairAt(s[1..], k, letter) {
          assert !PairAt(s, k + 1, letter);
        }
      }
      UnescapeSkip(s[1..], n - 1, letter, c);
      assert s[1..][n - 1..] == s[n..];
      assert s[..n] == [s[0]] + s[1..][..n - 1];
      assert [s[0]] + (s[1..][..n - 1] + UnescapePass(s[n..], letter, c)) == s[..n] + UnescapePass(s[n..], letter, c);
    }
  }

  /** One find/replace loop of `decode`. */
  method DecodePass(src0: string, letter: char, c: char) returns (src: string)
    ensures src == UnescapePass(src0, letter, c)
  {
    hide UnescapePass, FindPair, NoPairs;
    src := src0;
    var pos := FindPair(src, letter, 0);
    ghost var i := pos;
    ghost var done := src0[..i];
    UnescapeSkip(src0, pos, letter, c);
    while pos < |src|
      invariant i <= |src0| && pos == |done|
      invariant src == done + src0[i..]
      invariant UnescapePass(src0, letter, c) == done + UnescapePass(src0[i..], letter, c)
      invariant pos < |src| ==> PairAt(src0[i..], 0, letter)
      decreases |src0| - i
    {
      src := src[..pos] + [c] + src[pos + 2..];
      assert src == done + [c] + src0[i + 2..];
      var from := pos + 1;
      pos := FindPair(src, letter, from);
      ghost var rest := src0[i + 2..];
      NextPair(src, done + [c], rest, letter, pos - from);
      UnescapeRound(src0, i, rest, pos - from, letter, c);
      done := done + [c] + rest[..pos - from];
      i := i + 2 + (pos - from);
      assert src == done + src0[i..];
    }
    assert src0[i..] == [];
    UnescapeStep("", letter, c);
  }

  /** What the search behind `done` finds, told of the text that is left. */
  lemma NextPair(src: string, done: string, rest: string, letter: char, n: nat)
    requires src == done + rest && n <= |rest|
    requires NoPairs(src, |done|, |done| + n, letter)
    requires n < |rest| ==> PairAt(src, |done| + n, letter)
    ensures NoPairs(rest, 0, n, letter)
    ensures n < |rest| ==> PairAt(rest[n..], 0, letter)
  {
    forall k: nat | k < n ensures !PairAt(rest, k, letter) {
      assert !PairAt(src, |done| + k, letter);
    }
  }

  lemma UnescapeRound(s: string, i: nat, rest: string, n: nat, letter: char, c: char)
    requires i + 2 + n <= |s| && PairAt(s[i..], 0, letter)
    requires rest == s[i + 2..] && NoPairs(rest, 0, n, letter)
    ensures UnescapePass(s[i..], letter, c) == [c] + rest[..n] + UnescapePass(s[i + 2 + n..], letter, c)
    ensures rest[n..] == s[i + 2 + n..]
  {
    hide UnescapePass, NoPairs;
    UnescapeStep(s[i..], letter, c);
    assert s[i..][2..] == rest;
    UnescapeSkip(rest, n, letter, c);
    assert rest[n..] == s[i + 2 + n..];
  }

  // ----- decode after encode -----

  function Unescape(s: string): string {
    UnescapePass(UnescapePass(UnescapePass(UnescapePass(s, '\"', '\"'), 'r', '\r'), 'n', '\n'), '\\', '\\')
  }

  /** The in-place `decode`. */
  method Decode(src0: string) returns (src: string)
    ensures src == Unescape(src0)
  {
    hide UnescapePass;
    src := DecodePass(src0, '\"', '\"');
    src := DecodePass(src, 'r', '\r');
    src := DecodePass(src, 'n', '\n');
    src := DecodePass(src, '\\', '\\');
  }

  // The escape map that still escapes only some of the four characters, as the text looks between passes.
  function PartChar(c: char, cr: bool, lf: bool): string {
    if c == '\\' then "\\\\" else if c == '\r' && cr then "\\r" else if c == '\n' && lf then "\\n" else [c]
  }

  function Part(s: string, cr: bool, lf: bool): string
  {
    if |s| == 0 then "" else PartChar(s[0], cr, lf) + Part(s[1..], cr, lf)
  }

  /** A backslash stands directly before `letter`. */
  ghost predicate BackslashBefore(s: string, letter: char) { exists i: nat :: PairAt(s, i, letter) }

  lemma BackslashBeforeTail(s: string, letter: char)
    requires |s| > 0
    ensures BackslashBefore(s, letter) <==> PairAt(s, 0, letter) || BackslashBefore(s[1..], letter)
  {
    if BackslashBefore(s, letter) && !PairAt(s, 0, letter) {
      var i: nat :| PairAt(s, i, letter);
      assert PairAt(s[1..], i - 1, letter);
    }
    if BackslashBefore(s[1..], letter) {
      var i: nat :| PairAt(s[1..], i, letter);
      assert PairAt(s, i + 1, letter);
    }
  }

  // What one pass does with the code of one character at the head of its text.
  lemma PassCopies(x: char, u: string, letter: char, c: char)
    requires x != '\\' || |u| == 0 || u[0] != letter
    ensures UnescapePass([x] + u, letter, c) == [x] + UnescapePass(u, letter, c)
  {
    assert ([x] + u)[1..] == u;
  }

  lemma PassReplaces(u: string, letter: char, c: char)
    ensures UnescapePass(['\\', letter] + u, letter, c) == [c] + UnescapePass(u, letter, c)
  {
    assert (['\\', letter] + u)[2..] == u;
  }

  lemma PassCopiesTwo(x: char, y: char, u: string, letter: char, c: char)
    requires x != '\\' || y != letter
    requires y != '\\' || |u| == 0 || u[0] != letter
    ensures UnescapePass([x, y] + u, letter, c) == [x, y] + UnescapePass(u, letter, c)
  {
    hide UnescapePass;
    assert [x, y] + u == [x] + ([y] + u);
    PassCopies(x, [y] + u, letter, c);
    PassCopies(y, u, letter, c);
    assert [x] + ([y] + UnescapePass(u, letter, c)) == [x, y] + UnescapePass(u, letter, c);
  }

  lemma {:induction false} QuotePass(s: string)
    ensures UnescapePass(Escape(s), '\"', '\"') == Part(s, true, true)
  {
    hide UnescapePass;
    if |s| == 0 {
      UnescapeStep("", '\"', '\"');
    } else {
      var c, u := s[0], Escape(s[1..]);
      QuotePass(s[1..]);
      assert |u| > 0 ==> u[0] != '\"';
      if c == '\"' {
        PassReplaces(u, '\"', '\"');
      } else if NeedsEscape(c) {
        PassCopiesTwo('\\', EscapeChar(c)[1], u, '\"', '\"');
      } else {
        PassCopies(c, u, '\"', '\"');
      }
    }
  }

  lemma {:induction false} CrPass(s: string)
    requires !BackslashBefore(s, 'r')
    ensures UnescapePass(Part(s, true, true), 'r', '\r') == Part(s, false, true)
  {
    hide UnescapePass;
    if |s| == 0 {
      UnescapeStep("", 'r', '\r');
    } else {
      var c, u := s[0], Part(s[1..], true, true);
      BackslashBeforeTail(s, 'r');
      CrPass(s[1..]);
      assert |u| > 0 ==> (u[0] == 'r' <==> s[1] == 'r');
      if c == '\r' {
        PassReplaces(u, 'r', '\r');
      } else if c == '\\' || c == '\n' {
        PassCopiesTwo('\\', PartChar(c, true, true)[1], u, 'r', '\r');
      } else {
        PassCopies(c, u, 'r', '\r');
      }
    }
  }

  lemma {:induction false} LfPass(s: string)
    requires !BackslashBefore(s, 'n')
    ensures UnescapePass(Part(s, false, true), 'n', '\n') == Part(s, false, false)
  {
    hide UnescapePass;
    if |s| == 0 {
      UnescapeStep("", 'n', '\n');
    } else {
      var c, u := s[0], Part(s[1..], false, true);
      BackslashBeforeTail(s, 'n');
      LfPass(s[1..]);
      assert |u| > 0 ==> (u[0] == 'n' <==> s[1] == 'n');
      if c == '\n' {
        PassReplaces(u, 'n', '\n');
      } else if c == '\\' {
        PassCopiesTwo('\\', '\\', u, 'n', '\n');
      } else {
        PassCopies(c, u, 'n', '\n');
      }
    }
  }

  lemma {:induction false} BackslashPass(s: string)
    ensures UnescapePass(Part(s, false, false), '\\', '\\') == s
  {
    hide UnescapePass;
    if |s| == 0 {
      UnescapeStep("", '\\', '\\');
    } else {
      BackslashPass(s[1..]);
      var u := Part(s[1..], false, false);
      if s[0] == '\\' {
        PassReplaces(u, '\\', '\\');
      } else {
        PassCopies(s[0], u, '\\', '\\');
      }
      assert s == [s[0]] + s[1..];
    }
  }

  // Where a pass goes wrong it makes one CR or LF too many.
  function Count(s: string, c: char): nat { if |s| == 0 then 0 else (if s[0] == c then 1 else 0) + Count(s[1..], c) }

  lemma CountHead(x: char, u: string, c: char)
    ensures Count([x] + u, c) == (if x == c then 1 else 0) + Count(u, c)
  {
    assert ([x] + u)[1..] == u;
  }

  /** A pass that writes another character than `c` does not change the number of `c`s it does not read. */
  lemma {:induction false} PassKeepsCount(s: string, letter: char, d: char, c: char)
    requires c != d && c != letter && c != '\\'
    ensures Count(UnescapePass(s, letter, d), c) == Count(s, c)
  {
    hide Count, UnescapePass;
    UnescapeStep(s, letter, d);
    if PairAt(s, 0, letter) {
      PassKeepsCount(s[2..], letter, d, c);
      assert s == [s[0]] + ([s[1]] + s[2..]);
      CountHead(s[0], [s[1]] + s[2..], c);
      CountHead(s[1], s[2..], c);
      CountHead(d, UnescapePass(s[2..], letter, d), c);
    } else if |s| > 0 {
      PassKeepsCount(s[1..], letter, d, c);
      assert s == [s[0]] + s[1..];
      CountHead(s[0], s[1..], c);
      CountHead(s[0], UnescapePass(s[1..], letter, d), c);
    }
  }

  /** Between passes, a backslash directly before the letter makes the pass write one `c` too many. */
  lemma {:induction false} PassExcess(s: string, letter: char, c: char, cr: bool)
    requires (letter, c, cr) == ('r', '\r', true) || (letter, c, cr) == ('n', '\n', false)
    ensures Count(UnescapePass(Part(s, cr, true), letter, c), c) >= Count(s, c)
    ensures BackslashBefore(s, letter) ==> Count(UnescapePass(Part(s, cr, true), letter, c), c) > Count(s, c)
    decreases |s|
  {
    hide UnescapePass, Count;
    if |s| == 0 {
      UnescapeStep("", letter, c);
    } else {
      var x, u := s[0], Part(s[1..], cr, true);
      assert s == [x] + s[1..];
      CountHead(x, s[1..], c);
      BackslashBeforeTail(s, letter);
      if PairAt(s, 0, letter) {
        PassExcess(s[2..], letter, c, cr);
        ExcessPair(s, letter, c, cr);
      } else {
        PassExcess(s[1..], letter, c, cr);
        assert |u| > 0 ==> (u[0] == letter <==> s[1] == letter);
        CountHead(x, UnescapePass(u, letter, c), c);
        if x == c {
          PassReplaces(u, letter, c);
        } else if |PartChar(x, cr, true)| == 2 {
          var y := PartChar(x, cr, true)[1];
          PassCopiesTwo('\\', y, u, letter, c);
          assert ['\\', y] + UnescapePass(u, letter, c) == ['\\'] + ([y] + UnescapePass(u, letter, c));
          CountHead('\\', [y] + UnescapePass(u, letter, c), c);
          CountHead(y, UnescapePass(u, letter, c), c);
        } else {
          PassCopies(x, u, letter, c);
        }
      }
    }
  }

  lemma ExcessPair(s: string, letter: char, c: char, cr: bool)
    requires (letter, c, cr) == ('r', '\r', true) || (letter, c, cr) == ('n', '\n', false)
    requires PairAt(s, 0, letter)
    ensures Count(UnescapePass(Part(s, cr, true), letter, c), c) ==
            1 + Count(UnescapePass(Part(s[2..], cr, true), letter, c), c)
    ensures Count(s, c) == Count(s[2..], c)
  {
    hide UnescapePass, Count;
    var v := Part(s[2..], cr, true);
    assert s[1..][1..] == s[2..];
    assert Part(s[1..], cr, true) == [letter] + v;
    assert Part(s, cr, true) == ['\\'] + (['\\', letter] + v);
    PassCopies('\\', ['\\', letter] + v, letter, c);
    PassReplaces(v, letter, c);
    CountHead('\\', [c] + UnescapePass(v, letter, c), c);
    CountHead(c, UnescapePass(v, letter, c), c);
    assert s == ['\\'] + ([letter] + s[2..]);
    CountHead('\\', [letter] + s[2..], c);
    CountHead(letter, s[2..], c);
  }

  /** `decode` undoes `encode` exactly on the strings with no backslash directly before a letter r or n:
      there the middle passes take the second half of an escaped backslash for the start of an escape. */
  lemma UnescapeEscape(s: string)
    ensures Unescape(Escape(s)) == s <==> !BackslashBefore(s, 'r') && !BackslashBefore(s, 'n')
  {
    hide UnescapePass, BackslashBefore, Escape, Part, Count;
    QuotePass(s);
    var t2 := UnescapePass(Part(s, true, true), 'r', '\r');
    var t3 := UnescapePass(t2, 'n', '\n');
    if BackslashBefore(s, 'r') {
      PassExcess(s, 'r', '\r', true);
      PassKeepsCount(t2, 'n', '\n', '\r');
      PassKeepsCount(t3, '\\', '\\', '\r');
    } else {
      CrPass(s);
      if BackslashBefore(s, 'n') {
        PassExcess(s, 'n', '\n', false);
        PassKeepsCount(t3, '\\', '\\', '\n');
      } else {
        LfPass(s);
        BackslashPass(s);
      }
    }
  }

  /** The smallest string `decode` does not give back: backslash, r. */
  lemma UnescapeEscapeFails()
    ensures Unescape(Escape("\\r")) != "\\r"
  {
    assert PairAt("\\r", 0, 'r');
    UnescapeEscape("\\r");
  }

  /** What the four escapes look like. */
  lemma EscapedForms()
    ensures Escape("\\") == "\\\\" && Escape("\"") == "\\\"" && Escape("\r") == "\\r" && Escape("\n") == "\\n"
    ensures forall c :: c != '\\' && c != '\"' && c != '\r' && c != '\n' ==> Escape([c]) == [c]
  {
    forall c ensures Escape([c]) == EscapeChar(c) {
      assert [c][1..] == [];
      assert EscapeChar(c) + "" == EscapeChar(c);
    }
    assert Escape(['\\']) == EscapeChar('\\') && Escape(['\"']) == EscapeChar('\"');
    assert Escape(['\r']) == EscapeChar('\r') && Escape(['\n']) == EscapeChar('\n');
  }
}
