/** Values and string helpers shared by the text, image and video detectors:
    the outcome of a call to the external judge model, the [0,1] clamp, the
    substring test used to recognise transient errors, Python's `s[:n]`,
    `str(n)` for a natural number and `str.split()` with no arguments. */
module Common {

  datatype Option<+T> = None | Some(value: T) {
    /** `d.get(key, default)` once the lookup has produced this option */
    function GetOr(default: T): T {
      match this
      case Some(v) => v
      case None => default
    }
  }

  /** What a call to the judge model gives back: a value, or an exception with its message. */
  datatype Outcome<+T> = Ok(value: T) | Err(msg: string)

  predicate InUnit(x: real) {
    0.0 <= x <= 1.0
  }

  /** `max(0.0, min(x, 1.0))`, and `np.clip(x, 0, 1)` */
  function Clamp01(x: real): (r: real)
    ensures InUnit(r)
    ensures InUnit(x) ==> r == x
    ensures x < 0.0 ==> r == 0.0
    ensures x > 1.0 ==> r == 1.0
  {
    if x < 0.0 then 0.0 else if x > 1.0 then 1.0 else x
  }

  /** The decision threshold shared by every modality; the test is strict. */
  const Threshold: real := 0.5

  predicate IsAi(score: real) {
    score > Threshold
  }

  function Min(a: int, b: int): int {
    if a <= b then a else b
  }

  /* ---------------------------------------------------------------- */
  /* Substrings                                                       */
  /* ---------------------------------------------------------------- */

  predicate HasSuffix(s: string, t: string) {
    |t| <= |s| && s[|s| - |t|..] == t
  }

  predicate OccursAt(s: string, sub: string, i: int) {
    0 <= i && i + |sub| <= |s| && s[i..i + |sub|] == sub
  }

  /** Python's `sub in s` for strings, as a left-to-right scan. */
  function Contains(s: string, sub: string): bool {
    sub <= s || (|s| > 0 && Contains(s[1..], sub))
  }

  /** A scan that succeeds has found an occurrence. */
  lemma {:induction false} OccursWhenContains(s: string, sub: string)
    requires Contains(s, sub)
    ensures exists i :: OccursAt(s, sub, i)
  {
    if sub <= s {
      assert OccursAt(s, sub, 0);
    } else {
      OccursWhenContains(s[1..], sub);
      var i :| OccursAt(s[1..], sub, i);
      assert s[i + 1..i + 1 + |sub|] == s[1..][i..i + |sub|];
      assert OccursAt(s, sub, i + 1);
    }
  }

  /** An occurrence at position `i` is found by the scan. */
  lemma {:induction false} ContainsWhenOccurs(s: string, sub: string, i: int)
    requires OccursAt(s, sub, i)
    ensures Contains(s, sub)
    decreases i
  {
    if i > 0 {
      assert s[1..][i - 1..i - 1 + |sub|] == s[i..i + |sub|];
      ContainsWhenOccurs(s[1..], sub, i - 1);
    } else {
      assert sub == s[..|sub|];
    }
  }

  /** The scan finds `sub` exactly when it occurs at some position of `s`. */
  lemma ContainsIffOccurs(s: string, sub: string)
    ensures Contains(s, sub) <==> exists i :: OccursAt(s, sub, i)
  {
    if Contains(s, sub) {
      OccursWhenContains(s, sub);
    }
    if i :| OccursAt(s, sub, i) {
      ContainsWhenOccurs(s, sub, i);
    }
  }

  /** A concatenation starts with its first piece and ends with its last. */
  lemma ConcatEnds(a: string, b: string, c: string)
    ensures a <= a + b + c
    ensures HasSuffix(a + b + c, c)
  {
    var s := a + b + c;
    assert s[..|a|] == a;
    assert s[|s| - |c|..] == c;
  }

  /** Python's `s[:n]`. */
  function Truncate(s: string, n: nat): (r: string)
    ensures |r| <= n
    ensures r <= s
    ensures |r| == if |s| <= n then |s| else n
  {
    if |s| <= n then s else s[..n]
  }

  /* ---------------------------------------------------------------- */
  /* Decimal rendering of a natural number, as `str(n)` / `f"{n}"`      */
  /* ---------------------------------------------------------------- */

  predicate IsDigit(c: char) {
    '0' <= c <= '9'
  }

  function DigitChar(d: nat): (c: char)
    requires d < 10
    ensures IsDigit(c)
  {
    "0123456789"[d]
  }

  function DigitValue(c: char): (d: nat)
    requires IsDigit(c)
    ensures d < 10
  {
    (c as int) - ('0' as int)
  }

  function NatToString(n: nat): (s: string)
    ensures |s| >= 1
    ensures forall i :: 0 <= i < |s| ==> IsDigit(s[i])
  {
    if n < 10 then [DigitChar(n)] else NatToString(n / 10) + [DigitChar(n % 10)]
  }

  function ParseNat(s: string): nat
    requires forall i :: 0 <= i < |s| ==> IsDigit(s[i])
  {
    if s == [] then 0 else ParseNat(s[..|s| - 1]) * 10 + DigitValue(s[|s| - 1])
  }

  /** Reading back the decimal rendering gives the number again. */
  lemma {:induction false} ParseNatToString(n: nat)
    ensures ParseNat(NatToString(n)) == n
  {
    var s := NatToString(n);
    if n < 10 {
      assert s[..|s| - 1] == [];
    } else {
      var prefix := NatToString(n / 10);
      assert s[..|s| - 1] == prefix;
      ParseNatToString(n / 10);
    }
  }

  lemma NatToStringInjective(a: nat, b: nat)
    requires NatToString(a) == NatToString(b)
    ensures a == b
  {
    ParseNatToString(a);
    ParseNatToString(b);
  }

  /* ---------------------------------------------------------------- */
  /* Python's `str.split()` with no separator                          */
  /* ---------------------------------------------------------------- */

  /** The characters Python's `str.isspace` accepts, which `str.split()` splits on. */
  predicate IsSpace(c: char) {
    c == ' ' || c == '\t' || c == '\n' || c == '\r' || c == '\U{000B}' || c == '\U{000C}'
    || ('\U{001C}' <= c <= '\U{001F}') || c == '\U{0085}' || c == '\U{00A0}' || c == '\U{1680}'
    || ('\U{2000}' <= c <= '\U{200A}') || c == '\U{2028}' || c == '\U{2029}' || c == '\U{202F}'
    || c == '\U{205F}' || c == '\U{3000}'
  }

  predicate NoSpace(s: string) {
    forall i :: 0 <= i < |s| ==> !IsSpace(s[i])
  }

  /** A word is a non-empty run of non-space characters. */
  predicate IsWord(w: string) {
    w != [] && NoSpace(w)
  }

  /** Splits `s`, where `cur` is the word being read when `s` starts. */
  function SplitFrom(s: string, cur: string): seq<string>
    decreases |s|
  {
    if s == [] then
      (if cur == [] then [] else [cur])
    else if IsSpace(s[0]) then
      (if cur == [] then [] else [cur]) + SplitFrom(s[1..], [])
    else
      SplitFrom(s[1..], cur + [s[0]])
  }

  /** `s.split()`: the maximal runs of non-space characters, in order. */
  function Words(s: string): seq<string> {
    SplitFrom(s, [])
  }

  /** The non-space characters of `s`, in order. */
  function NonSpace(s: string): string {
    if s == [] then [] else (if IsSpace(s[0]) then [] else [s[0]]) + NonSpace(s[1..])
  }

  function Concat(ws: seq<string>): string {
    if ws == [] then [] else ws[0] + Concat(ws[1..])
  }

  lemma {:induction false} ConcatAppend(a: seq<string>, b: seq<string>)
    ensures Concat(a + b) == Concat(a) + Concat(b)
  {
    if a == [] {
      assert a + b == b;
    } else {
      assert (a + b)[1..] == a[1..] + b;
      ConcatAppend(a[1..], b);
    }
  }

  lemma {:induction false} SplitFromWords(s: string, cur: string)
    requires NoSpace(cur)
    ensures forall k :: 0 <= k < |SplitFrom(s, cur)| ==> IsWord(SplitFrom(s, cur)[k])
    ensures Concat(SplitFrom(s, cur)) == cur + NonSpace(s)
    ensures SplitFrom(s, cur) == [] <==> cur == [] && NonSpace(s) == []
    decreases |s|
  {
    var r := SplitFrom(s, cur);
    var head: seq<string> := if cur == [] then [] else [cur];
    assert Concat(head) == cur by {
      if cur != [] {
        assert head[1..] == [];
      }
    }
    if s == [] {
    } else if IsSpace(s[0]) {
      SplitFromWords(s[1..], []);
      ConcatAppend(head, SplitFrom(s[1..], []));
      assert r == head + SplitFrom(s[1..], []);
      assert NonSpace(s) == NonSpace(s[1..]);
    } else {
      var cur' := cur + [s[0]];
      assert NoSpace(cur');
      SplitFromWords(s[1..], cur');
      assert NonSpace(s) == [s[0]] + NonSpace(s[1..]);
    }
  }

  /** Every token of `s.split()` is a word, and the tokens together are
      exactly the non-space characters of `s`, in order. */
  lemma WordsPartitionNonSpace(s: string)
    ensures forall k :: 0 <= k < |Words(s)| ==> IsWord(Words(s)[k])
    ensures Concat(Words(s)) == NonSpace(s)
    ensures Words(s) == [] <==> NonSpace(s) == []
  {
    SplitFromWords(s, []);
  }

  /** Splitting never looks into a run of non-space characters: a space-free
      text only extends the word being read. */
  lemma {:induction false} SplitFromNoSpace(w: string, cur: string)
    requires NoSpace(w)
    ensures SplitFrom(w, cur) == if cur + w == [] then [] else [cur + w]
    decreases |w|
  {
    if w != [] {
      assert !IsSpace(w[0]);
      assert NoSpace(w[1..]);
      SplitFromNoSpace(w[1..], cur + [w[0]]);
      assert (cur + [w[0]]) + w[1..] == cur + w;
    } else {
      assert cur + w == cur;
    }
  }

  /** Splitting at a whitespace character separates what comes before it from what comes after. */
  lemma {:induction false} SplitFromAtSpace(a: string, c: char, b: string, cur: string)
    requires IsSpace(c)
    ensures SplitFrom(a + [c] + b, cur) == SplitFrom(a, cur) + SplitFrom(b, [])
    decreases |a|
  {
    var s := a + [c] + b;
    if a == [] {
      assert s == [c] + b && s[0] == c && s[1..] == b;
    } else {
      assert s[0] == a[0] && s[1..] == a[1..] + [c] + b;
      if IsSpace(a[0]) {
        SplitFromAtSpace(a[1..], c, b, []);
      } else {
        SplitFromAtSpace(a[1..], c, b, cur + [a[0]]);
      }
    }
  }

  /** A word is split into itself alone. */
  lemma WordsOfWord(w: string)
    requires IsWord(w)
    ensures Words(w) == [w]
  {
    SplitFromNoSpace(w, []);
    assert [] + w == w;
  }

  /** `s.split()` splits at every whitespace character: the tokens of `a + c + b`
      are those of `a` followed by those of `b`. */
  lemma WordsAtSpace(a: string, c: char, b: string)
    requires IsSpace(c)
    ensures Words(a + [c] + b) == Words(a) + Words(b)
  {
    SplitFromAtSpace(a, c, b, []);
  }

  /* ---------------------------------------------------------------- */
  /* Python's `sep.join(parts)`                                        */
  /* ---------------------------------------------------------------- */

  function Join(parts: seq<string>, sep: string): string {
    if parts == [] then ""
    else if |parts| == 1 then parts[0]
    else parts[0] + sep + Join(parts[1..], sep)
  }

  /** A joined list starts with its first part and ends with its last. */
  lemma {:induction false} JoinEnds(parts: seq<string>, sep: string)
    requires parts != []
    ensures parts[0] <= Join(parts, sep)
    ensures HasSuffix(Join(parts, sep), parts[|parts| - 1])
  {
    if |parts| > 1 {
      JoinEnds(parts[1..], sep);
      var rest := Join(parts[1..], sep);
      assert Join(parts, sep) == parts[0] + (sep + rest);
      assert parts[1..][|parts[1..]| - 1] == parts[|parts| - 1];
    }
  }

  /** The separator stands between each part and the next: cutting the list after
      part `i` cuts the joined text at one occurrence of `sep`. */
  lemma {:induction false} JoinAt(parts: seq<string>, sep: string, i: nat)
    requires i + 1 < |parts|
    ensures Join(parts, sep) == Join(parts[..i + 1], sep) + sep + Join(parts[i + 1..], sep)
  {
    if i > 0 {
      JoinAt(parts[1..], sep, i - 1);
      assert parts[1..][..i] == parts[..i + 1][1..];
      assert parts[1..][i..] == parts[i + 1..];
    }
  }

  /** Splitting words joined by single spaces gives the words back. */
  lemma {:induction false} WordsOfJoinedWords(ws: seq<string>)
    requires forall k :: 0 <= k < |ws| ==> IsWord(ws[k])
    ensures Words(Join(ws, " ")) == ws
  {
    if ws == [] {
    } else if |ws| == 1 {
      WordsOfWord(ws[0]);
    } else {
      var rest := Join(ws[1..], " ");
      WordsOfJoinedWords(ws[1..]);
      assert Join(ws, " ") == ws[0] + [' '] + rest;
      WordsAtSpace(ws[0], ' ', rest);
      WordsOfWord(ws[0]);
      assert ws == [ws[0]] + ws[1..];
    }
  }
}
