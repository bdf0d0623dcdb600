/**
 * The string utilities of the newer engine (levk/core/src/utils/string.cpp and
 * levk/core/include/levk/core/utils/string.hpp): searching, splitting,
 * joining, substitution, type-name trimming and number/boolean parsing.
 * `std::string` and `std::string_view` are both `string`.
 */
module Strings {
  import opened Wrappers

  // ---------------------------------------------------------------- searching

  /** `find(c)` from index `k` on: the first index at or after `k` holding `c`. */
  function FindFrom(s: string, c: char, k: nat): (r: Option<nat>)
    requires k <= |s|
    ensures r.Some? ==> k <= r.value < |s| && s[r.value] == c
    ensures r.Some? ==> forall j :: k <= j < r.value ==> s[j] != c
    ensures r.None? ==> forall j :: k <= j < |s| ==> s[j] != c
    decreases |s| - k
  {
    if k == |s| then None
    else if s[k] == c then Some(k)
    else FindFrom(s, c, k + 1)
  }

  /** `string_view::find(c)`: the first index holding `c`, or none (`npos`). */
  function Find(s: string, c: char): (r: Option<nat>)
    ensures r.Some? ==> r.value < |s| && s[r.value] == c && c !in s[..r.value]
    ensures r.None? <==> c !in s
  {
    var r := FindFrom(s, c, 0);
    if r.Some? then
      assert forall j :: 0 <= j < r.value ==> s[..r.value][j] == s[j];
      r
    else r
  }

  /** `find_last_of(c)`: the last index holding `c`, or none. */
  function FindLast(s: string, c: char): (r: Option<nat>)
    ensures r.Some? ==> r.value < |s| && s[r.value] == c && c !in s[r.value + 1..]
    ensures r.None? <==> c !in s
  {
    if s == [] then None
    else if s[|s| - 1] == c then Some(|s| - 1)
    else
      var r := FindLast(s[..|s| - 1], c);
      assert forall x :: x in s ==> x in s[..|s| - 1] || x == s[|s| - 1];
      if r.Some? then
        assert s[r.value + 1..] == s[..|s| - 1][r.value + 1..] + [s[|s| - 1]];
        r
      else r
  }

  /** A "::" starts at index `i`. */
  predicate ColonsAt(s: string, i: nat) {
    i + 1 < |s| && s[i] == ':' && s[i + 1] == ':'
  }

  function FindColonsFrom(s: string, k: nat): (r: Option<nat>)
    requires k <= |s|
    ensures r.Some? ==> k <= r.value && ColonsAt(s, r.value)
    ensures r.Some? ==> forall j :: k <= j < r.value ==> !ColonsAt(s, j)
    ensures r.None? ==> forall j :: k <= j < |s| ==> !ColonsAt(s, j)
    decreases |s| - k
  {
    if k == |s| then None
    else if ColonsAt(s, k) then Some(k)
    else FindColonsFrom(s, k + 1)
  }

  /** `string_view::find("::")`: where the first "::" starts, or none. */
  function FindColons(s: string): (r: Option<nat>)
    ensures r.Some? ==> ColonsAt(s, r.value) && forall j :: 0 <= j < r.value ==> !ColonsAt(s, j)
    ensures r.None? ==> forall j :: 0 <= j < |s| ==> !ColonsAt(s, j)
  {
    FindColonsFrom(s, 0)
  }

  predicate IsSuffix(r: string, s: string) {
    |r| <= |s| && s[|s| - |r|..] == r
  }

  // ---------------------------------------------------------------- type names

  /**
   * The loop condition of `minimalName`: a "::" occurs, and no '<' occurs
   * before it (`npos` compares greater than any index).
   */
  predicate StripsQualifier(s: string) {
    match FindColons(s)
    case None => false
    case Some(ps) =>
      match Find(s, '<')
      case None => true
      case Some(ss) => ss > ps
  }

  /**
   * `minimalName`: drop everything up to and including the first "::" for as
   * long as that "::" comes before any '<'. The result is a suffix of the
   * input on which the loop would stop.
   */
  function MinimalName(full: string): (r: string)
    ensures IsSuffix(r, full)
    ensures !StripsQualifier(r)
    decreases |full|
  {
    if StripsQualifier(full) then
      var ps := FindColons(full).value;
      var r := MinimalName(full[ps + 2..]);
      SuffixOfDrop(r, full, ps + 2);
      r
    else full
  }

  /** A suffix of what follows index `k` is a suffix of the whole. */
  lemma SuffixOfDrop(r: string, s: string, k: nat)
    requires k <= |s| && IsSuffix(r, s[k..])
    ensures IsSuffix(r, s)
  {
    assert s[k..][|s[k..]| - |r|..] == s[|s| - |r|..];
  }

  /** Trimming a minimal name again changes nothing. */
  lemma MinimalNameIdempotent(full: string)
    ensures MinimalName(MinimalName(full)) == MinimalName(full)
  {
  }

  /** A name without a ':' is already minimal. */
  lemma MinimalNamePlain(name: string)
    requires ':' !in name
    ensures MinimalName(name) == name
  {
  }

  /** A leading qualifier without ':' or '<' goes. */
  lemma MinimalNameDropsQualifier(qualifier: string, rest: string)
    requires ':' !in qualifier && '<' !in qualifier && '<' !in rest
    ensures MinimalName(qualifier + "::" + rest) == MinimalName(rest)
  {
    var full := qualifier + "::" + rest;
    FirstColonsAfter(qualifier, rest);
    assert Find(full, '<').None? by {
      assert '<' !in full;
    }
    assert StripsQualifier(full);
    assert full[|qualifier| + 2..] == rest;
  }

  /** The first "::" of `qualifier + "::" + rest` is the one after the qualifier, when it has no ':'. */
  lemma FirstColonsAfter(qualifier: string, rest: string)
    requires ':' !in qualifier
    ensures FindColons(qualifier + "::" + rest) == Some(|qualifier|)
  {
    var full := qualifier + "::" + rest;
    assert ColonsAt(full, |qualifier|);
    assert forall j :: 0 <= j < |qualifier| ==> full[j] == qualifier[j];
  }

  /** Every qualifier outside a template argument list goes: `a::b::C` becomes `C`. */
  lemma MinimalNameExamples(a: string, b: string, c: string)
    requires ':' !in a + b + c && '<' !in a + b + c
    ensures MinimalName(a + "::" + b + "::" + c) == c
  {
    assert ':' !in a && ':' !in b && ':' !in c && '<' !in a && '<' !in b && '<' !in c;
    assert a + "::" + b + "::" + c == a + "::" + (b + "::" + c);
    assert '<' !in b + "::" + c;
    MinimalNameDropsQualifier(a, b + "::" + c);
    MinimalNameDropsQualifier(b, c);
    MinimalNamePlain(c);
  }

  /**
   * `removeNamespaces`: `find_last_of("::")` looks for the last ':' character,
   * so the result is what follows the last ':' (or the whole name).
   */
  function RemoveNamespaces(name: string): (r: string)
    ensures ':' !in r
    ensures ':' in name ==> |r| < |name| && name[|name| - |r| - 1] == ':' && name[|name| - |r|..] == r
    ensures ':' !in name ==> r == name
  {
    match FindLast(name, ':')
    case Some(i) => name[i + 1..]
    case None => name
  }

  // ---------------------------------------------------------------- splitting and joining

  /**
   * `bisect`: split at the first `delimiter`, dropping it; without one, the
   * whole input and an empty second half.
   */
  function Bisect(input: string, delimiter: char): (r: (string, string))
    ensures delimiter in input ==> r.0 + [delimiter] + r.1 == input && delimiter !in r.0
    ensures delimiter !in input ==> r == (input, "")
  {
    match Find(input, delimiter)
    case Some(idx) =>
      assert input[..idx] + [delimiter] + input[idx + 1..] == input;
      (input[..idx], input[idx + 1..])
    case None => (input, "")
  }

  /**
   * `tokenise<N>`: cut `text` at each `delim`, at most `n` tokens; a token is
   * pushed for each delimiter found (so leading or doubled delimiters give
   * empty tokens) and the loop ends when the text runs out or `n` are held.
   */
  function Tokenise(text: string, delim: char, n: nat): (r: seq<string>)
    ensures |r| <= n
    ensures forall i :: 0 <= i < |r| ==> delim !in r[i]
    decreases |text|
  {
    if text == [] || n == 0 then []
    else
      match Find(text, delim)
      case Some(idx) => [text[..idx]] + Tokenise(text[idx + 1..], delim, n - 1)
      case None => [text]
  }

  /** `concatenate`: the strings in order with `delim` between neighbours, and nowhere else. */
  function Concatenate(strings: seq<string>, delim: string): (r: string)
    decreases |strings|
  {
    if strings == [] then []
    else if |strings| == 1 then strings[0]
    else strings[0] + delim + Concatenate(strings[1..], delim)
  }

  /** Total length of the strings. */
  function TotalLength(strings: seq<string>): nat {
    if strings == [] then 0 else |strings[0]| + TotalLength(strings[1..])
  }

  /**
   * The joined string holds every character of the inputs plus one delimiter
   * for each pair of neighbours; an empty list joins to "" and one string
   * joins to itself.
   */
  lemma {:induction false} ConcatenateLength(strings: seq<string>, delim: string)
    ensures strings == [] ==> Concatenate(strings, delim) == ""
    ensures |strings| == 1 ==> Concatenate(strings, delim) == strings[0]
    ensures strings != [] ==> |Concatenate(strings, delim)| == TotalLength(strings) + (|strings| - 1) * |delim|
    decreases |strings|
  {
    if |strings| > 1 {
      ConcatenateLength(strings[1..], delim);
    } else if |strings| == 1 {
      assert strings[1..] == [];
    }
  }

  /** How many times `c` occurs in `s`. */
  function Occurrences(s: string, c: char): nat {
    if s == [] then 0 else (if s[0] == c then 1 else 0) + Occurrences(s[1..], c)
  }

  lemma {:induction false} OccurrencesConcat(a: string, b: string, c: char)
    ensures Occurrences(a + b, c) == Occurrences(a, c) + Occurrences(b, c)
    decreases |a|
  {
    if a == [] {
      assert a + b == b;
    } else {
      assert (a + b)[1..] == a[1..] + b;
      OccurrencesConcat(a[1..], b, c);
    }
  }

  lemma {:induction false} OccurrencesAbsent(s: string, c: char)
    requires c !in s
    ensures Occurrences(s, c) == 0
    decreases |s|
  {
    if s != [] {
      OccurrencesAbsent(s[1..], c);
    }
  }

  lemma ConcatenatePair(a: string, rest: seq<string>, delim: string)
    requires rest != []
    ensures Concatenate([a] + rest, delim) == a + delim + Concatenate(rest, delim)
  {
    assert ([a] + rest)[1..] == rest;
  }

  /**
   * Tokenising and joining again with the same delimiter gives back the text,
   * when `n` is large enough for every token and the text does not end in the
   * delimiter (a trailing delimiter yields no empty token).
   */
  lemma {:induction false} TokeniseThenConcatenate(text: string, delim: char, n: nat)
    requires Occurrences(text, delim) < n
    requires text == [] || text[|text| - 1] != delim
    ensures Rejoins(text, delim, n)
    decreases |text|, 1
  {
    if text != [] {
      match Find(text, delim)
      case Some(idx) =>
        RejoinAfterFirst(text, delim, n, idx);
      case None =>
        TokeniseWhole(text, delim, n);
        ConcatenateLength([text], [delim]);
    }
  }

  /** The induction step: the rest after the first delimiter rejoins, and so does the whole text. */
  lemma {:induction false} RejoinAfterFirst(text: string, delim: char, n: nat, idx: nat)
    requires Occurrences(text, delim) < n
    requires Find(text, delim) == Some(idx) && text[|text| - 1] != delim
    ensures Rejoins(text, delim, n)
    decreases |text|, 0
  {
    OneFewerAfterFirst(text, delim, idx);
    var rest := text[idx + 1..];
    var m: nat := n - 1;
    assert Occurrences(rest, delim) < m;
    assert rest == [] || rest[|rest| - 1] != delim;
    assert |rest| < |text|;
    TokeniseThenConcatenate(rest, delim, m);
    JoinFirstToken(text, delim, n, idx, rest, m);
  }

  predicate Rejoins(text: string, delim: char, n: nat) {
    Concatenate(Tokenise(text, delim, n), [delim]) == text
  }

  /** Joining the first token back onto the rejoined rest of the text gives the text. */
  lemma JoinFirstToken(text: string, delim: char, n: nat, idx: nat, rest: string, m: nat)
    requires Find(text, delim) == Some(idx) && 1 < n && text[|text| - 1] != delim
    requires rest == text[idx + 1..] && m == n - 1 && Rejoins(rest, delim, m)
    ensures Rejoins(text, delim, n)
  {
    SplitAtFirstDelimiter(text, delim, idx);
    var tail := Tokenise(rest, delim, m);
    assert Tokenise(text, delim, n) == [text[..idx]] + tail;
    ConcatenatePair(text[..idx], tail, [delim]);
  }

  /** The rest after the first delimiter has one occurrence fewer and does not end in the delimiter either. */
  lemma OneFewerAfterFirst(text: string, delim: char, idx: nat)
    requires Find(text, delim) == Some(idx)
    requires text[|text| - 1] != delim
    ensures text[idx + 1..] != [] && text[idx + 1..][|text[idx + 1..]| - 1] != delim
    ensures Occurrences(text[idx + 1..], delim) + 1 == Occurrences(text, delim)
  {
    SplitAtFirstDelimiter(text, delim, idx);
  }

  /** Splitting at the first delimiter: one occurrence fewer in the rest, which is not empty when the text does not end in it. */
  lemma SplitAtFirstDelimiter(text: string, delim: char, idx: nat)
    requires Find(text, delim) == Some(idx)
    requires text[|text| - 1] != delim
    ensures text == text[..idx] + [delim] + text[idx + 1..]
    ensures text[idx + 1..] != [] && text[idx + 1..][|text[idx + 1..]| - 1] != delim
    ensures Occurrences(text[idx + 1..], delim) + 1 == Occurrences(text, delim)
  {
    var head, rest := text[..idx], text[idx + 1..];
    assert text == head + [delim] + rest;
    OccurrencesConcat(head + [delim], rest, delim);
    OccurrencesConcat(head, [delim], delim);
    OccurrencesAbsent(head, delim);
    assert Occurrences([delim], delim) == 1 by {
      assert [delim][1..] == [];
    }
  }

  /**
   * Joining strings that do not contain the delimiter and tokenising the
   * result gives back the strings, when there are at most `n` of them and
   * the last is not empty.
   */
  lemma {:induction false} ConcatenateThenTokenise(strings: seq<string>, delim: char, n: nat)
    requires 0 < |strings| <= n
    requires forall i :: 0 <= i < |strings| ==> delim !in strings[i]
    requires strings[|strings| - 1] != []
    ensures SplitsBack(strings, delim, n)
    decreases |strings|
  {
    if |strings| == 1 {
      TokeniseWhole(strings[0], delim, n);
      ConcatenateLength(strings, [delim]);
      assert strings == [strings[0]];
    } else {
      ConcatenateThenTokenise(strings[1..], delim, n - 1);
      SplitFirstString(strings, delim, n);
    }
  }

  /** Joined strings tokenise back into the same strings. */
  predicate SplitsBack(strings: seq<string>, delim: char, n: nat) {
    Tokenise(Concatenate(strings, [delim]), delim, n) == strings
  }

  /** The first string comes back as the first token, ahead of the tokens of the rest. */
  lemma SplitFirstString(strings: seq<string>, delim: char, n: nat)
    requires 1 < |strings| <= n && delim !in strings[0]
    requires SplitsBack(strings[1..], delim, n - 1)
    ensures SplitsBack(strings, delim, n)
  {
    var s0, rest := strings[0], strings[1..];
    var joined := Concatenate(rest, [delim]);
    assert strings == [s0] + rest;
    assert Concatenate(strings, [delim]) == s0 + [delim] + joined by {
      ConcatenatePair(s0, rest, [delim]);
    }
    TokeniseStep(s0, delim, joined, n);
  }

  /** A non-empty text without the delimiter is one token. */
  lemma TokeniseWhole(text: string, delim: char, n: nat)
    requires text != [] && 0 < n && delim !in text
    ensures Tokenise(text, delim, n) == [text]
  {
  }

  /** The first token is everything before the first delimiter. */
  lemma TokeniseStep(head: string, delim: char, tail: string, n: nat)
    requires delim !in head && 0 < n
    ensures Tokenise(head + [delim] + tail, delim, n) == [head] + Tokenise(tail, delim, n - 1)
  {
    SplitAtFirst(head, delim, tail);
  }

  /** Cutting `head + [delim] + tail` at its first delimiter, when `head` has none. */
  lemma SplitAtFirst(head: string, delim: char, tail: string)
    requires delim !in head
    ensures Find(head + [delim] + tail, delim) == Some(|head|)
    ensures (head + [delim] + tail)[..|head|] == head
    ensures (head + [delim] + tail)[|head| + 1..] == tail
  {
    var text := head + [delim] + tail;
    assert text[|head|] == delim;
    assert forall j :: 0 <= j < |head| ==> text[j] == head[j];
    assert delim in text;
    assert forall k :: |head| < k <= |text| ==> text[..k][|head|] == delim;
  }

  lemma {:induction false} TotalLengthLast(strings: seq<string>)
    requires strings != [] && strings[|strings| - 1] != []
    ensures TotalLength(strings) > 0
    decreases |strings|
  {
    if |strings| > 1 {
      TotalLengthLast(strings[1..]);
    }
  }

  /** The tokeniser's edge cases: an empty token for a leading delimiter, and truncation at `n`. */
  lemma TokeniseExamples()
    ensures Tokenise(",a", ',', 4) == ["", "a"]
    ensures Tokenise("a,b", ',', 1) == ["a"]
  {
    assert Find(",a", ',') == Some(0);
    assert ",a"[1..] == "a";
    assert Find("a", ',') == None;
    assert Find("a,b", ',') == Some(1);
    assert "a,b"[..1] == "a";
  }

  // ---------------------------------------------------------------- substitution

  /**
   * The character `substitute` writes in place of `c`: the target of the
   * first pair whose source is `c`, or `c` itself when none matches.
   */
  function Replace(c: char, pairs: seq<(char, char)>): (r: char)
    ensures (forall j :: 0 <= j < |pairs| ==> pairs[j].0 != c) ==> r == c
    ensures forall j :: 0 <= j < |pairs| && pairs[j].0 == c && (forall k :: 0 <= k < j ==> pairs[k].0 != c) ==> r == pairs[j].1
  {
    if pairs == [] then c
    else if pairs[0].0 == c then pairs[0].1
    else
      var r := Replace(c, pairs[1..]);
      assert forall j :: 1 <= j < |pairs| ==> pairs[1..][j - 1] == pairs[j];
      r
  }

  /** `substitute`: one left-to-right pass, each character replaced by the first matching pair. */
  function Substitute(input: string, pairs: seq<(char, char)>): (r: string)
    ensures |r| == |input|
    ensures forall i :: 0 <= i < |input| ==> r[i] == Replace(input[i], pairs)
  {
    seq(|input|, i requires 0 <= i < |input| => Replace(input[i], pairs))
  }

  /** Substitution is a single pass: a replaced character is not replaced again by a later pair. */
  lemma SubstituteSinglePass()
    ensures Substitute("ab", [('a', 'b'), ('b', 'c')]) == "bc"
  {
    var ps := [('a', 'b'), ('b', 'c')];
    assert Replace('a', ps) == 'b';
    assert Replace('b', ps) == 'c';
  }

  // ---------------------------------------------------------------- parsing

  /** `FromChars<bool>`: exactly three spellings of each value are accepted. */
  function FromCharsBool(str: string): (r: Option<bool>)
    ensures r == Some(true) <==> str == "true" || str == "TRUE" || str == "True"
    ensures r == Some(false) <==> str == "false" || str == "FALSE" || str == "False"
    ensures r.Some? ==> |str| == (if r.value then 4 else 5)
  {
    if str == "true" || str == "TRUE" || str == "True" then Some(true)
    else if str == "false" || str == "FALSE" || str == "False" then Some(false)
    else None
  }

  predicate IsDigit(c: char) {
    '0' <= c <= '9'
  }

  function DigitValue(c: char): nat
    requires IsDigit(c)
  {
    c as int - '0' as int
  }

  function Digit(d: nat): (c: char)
    requires d < 10
    ensures IsDigit(c) && DigitValue(c) == d
  {
    ('0' as int + d) as char
  }

  /** The length of the run of digits that starts `s`. */
  function DigitRun(s: string): (n: nat)
    ensures n <= |s|
    ensures forall i :: 0 <= i < n ==> IsDigit(s[i])
    ensures n < |s| ==> !IsDigit(s[n])
  {
    if s == [] || !IsDigit(s[0]) then 0 else 1 + DigitRun(s[1..])
  }

  /** The decimal value of a run of digits, most significant first. */
  function Value(ds: string): nat
    requires forall i :: 0 <= i < |ds| ==> IsDigit(ds[i])
  {
    if ds == [] then 0 else Value(ds[..|ds| - 1]) * 10 + DigitValue(ds[|ds| - 1])
  }

  /**
   * Generic `FromChars` for an integer type whose range is `[lo, hi]`, as
   * `std::from_chars` parses it: an optional '-' (signed types only), then
   * the longest run of decimal digits; trailing characters are ignored. No
   * digits is `invalid_argument`, a value out of range `result_out_of_range`;
   * both are failure.
   */
  function FromChars(str: string, lo: int, hi: int): (r: Option<int>)
    ensures r.Some? ==> lo <= r.value <= hi
    ensures str == [] ==> r == None
  {
    var neg := |str| > 0 && str[0] == '-' && lo < 0;
    var body := if neg then str[1..] else str;
    var n := DigitRun(body);
    if n == 0 then None
    else
      var v: int := if neg then 0 - Value(body[..n]) else Value(body[..n]);
      if lo <= v <= hi then Some(v) else None
  }

  /** `to<T>(str, fallback)`: the parsed value, or `fallback` when parsing fails. */
  function To(str: string, fallback: int, lo: int, hi: int): (r: int)
    ensures FromChars(str, lo, hi).Some? ==> r == FromChars(str, lo, hi).value
    ensures FromChars(str, lo, hi).None? ==> r == fallback
  {
    FromChars(str, lo, hi).GetOr(fallback)
  }

  /** `to<bool>(str, fallback)`. */
  function ToBool(str: string, fallback: bool): (r: bool)
    ensures FromCharsBool(str).Some? ==> r == FromCharsBool(str).value
    ensures FromCharsBool(str).None? ==> r == fallback
  {
    FromCharsBool(str).GetOr(fallback)
  }

  /** The decimal spelling of `n`, without leading zeros: a reference printer for the parser. */
  function Decimal(n: nat): (s: string)
    ensures |s| > 0
    ensures forall i :: 0 <= i < |s| ==> IsDigit(s[i])
    decreases n
  {
    if n < 10 then [Digit(n)] else Decimal(n / 10) + [Digit(n % 10)]
  }

  lemma {:induction false} DecimalValue(n: nat)
    ensures Value(Decimal(n)) == n
    decreases n
  {
    var s := Decimal(n);
    if n < 10 {
      assert s[..0] == [];
    } else {
      DecimalValue(n / 10);
      assert s[..|s| - 1] == Decimal(n / 10);
    }
  }

  lemma {:induction false} DigitRunPrefix(ds: string, rest: string)
    requires forall i :: 0 <= i < |ds| ==> IsDigit(ds[i])
    requires rest == [] || !IsDigit(rest[0])
    ensures DigitRun(ds + rest) == |ds|
    ensures (ds + rest)[..|ds|] == ds
    decreases |ds|
  {
    if ds == [] {
      assert ds + rest == rest;
    } else {
      assert (ds + rest)[1..] == ds[1..] + rest;
      DigitRunPrefix(ds[1..], rest);
    }
  }

  /**
   * Round trip: printing a value in range and parsing it back gives the
   * value, whatever non-digit text follows ("12abc" reads as 12).
   */
  lemma FromCharsDecimal(n: nat, rest: string, lo: int, hi: int)
    requires lo <= n <= hi
    requires rest == [] || !IsDigit(rest[0])
    ensures FromChars(Decimal(n) + rest, lo, hi) == Some(n)
  {
    DigitRunPrefix(Decimal(n), rest);
    DecimalValue(n);
    assert (Decimal(n) + rest)[0] == Decimal(n)[0];
  }

  /** The same for a negative value of a signed type. */
  lemma FromCharsNegative(n: nat, rest: string, lo: int, hi: int)
    requires lo < 0 && lo <= -(n as int) <= hi
    requires rest == [] || !IsDigit(rest[0])
    ensures FromChars("-" + Decimal(n) + rest, lo, hi) == Some(-(n as int))
  {
    var str := "-" + Decimal(n) + rest;
    assert str[1..] == Decimal(n) + rest;
    DigitRunPrefix(Decimal(n), rest);
    DecimalValue(n);
  }

  /** An unsigned type rejects a leading '-'. */
  lemma FromCharsUnsignedMinus(str: string, lo: int, hi: int)
    requires 0 <= lo
    requires |str| > 0 && str[0] == '-'
    ensures FromChars(str, lo, hi) == None
  {
  }

  /** A byte, as `std::byte` holds it. */
  type Byte = x: int | 0 <= x < 256

  /** `toText`: one character per byte, the character's code being the byte's value. */
  function ToText(buffer: seq<Byte>): (r: string)
    ensures |r| == |buffer|
    ensures forall i :: 0 <= i < |buffer| ==> r[i] as int == buffer[i]
  {
    seq(|buffer|, i requires 0 <= i < |buffer| => buffer[i] as char)
  }

  /** Reading text back as bytes, failing on a character above 255. */
  function FromText(text: string): (r: Option<seq<Byte>>)
    ensures r.Some? <==> forall i :: 0 <= i < |text| ==> text[i] as int < 256
    ensures r.Some? ==> |r.value| == |text|
  {
    if forall i :: 0 <= i < |text| ==> text[i] as int < 256 then
      Some(seq(|text|, i requires 0 <= i < |text| => text[i] as int as Byte))
    else None
  }

  /** `toText` loses nothing: reading its text back gives the buffer. */
  lemma ToTextRoundTrip(buffer: seq<Byte>)
    ensures FromText(ToText(buffer)) == Some(buffer)
  {
    var t := ToText(buffer);
    assert forall i :: 0 <= i < |t| ==> t[i] as int < 256;
    var back := FromText(t).value;
    assert forall i :: 0 <= i < |buffer| ==> back[i] == buffer[i];
    assert back == buffer;
  }
}
