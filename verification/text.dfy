/** String helpers the bot relies on: the one-character `split` and `join`
    of JavaScript strings, ASCII case mapping for `toLowerCase` and
    `toUpperCase`, and the `capitalize` helper of bot.js. */
module Text {

  datatype Option<+T> = None | Some(value: T)

  /** A JavaScript value as seen by `capitalize`: a string or anything else. */
  datatype JsValue = JsString(s: string) | NonString

  /** Number of occurrences of `c` in `s`. */
  function CountChar(s: string, c: char): nat
  {
    if |s| == 0 then 0 else (if s[0] == c then 1 else 0) + CountChar(s[1..], c)
  }

  lemma {:induction false} CountCharAppend(a: string, b: string, c: char)
    ensures CountChar(a + b, c) == CountChar(a, c) + CountChar(b, c)
    decreases |a|
  {
    if |a| == 0 {
      assert a + b == b;
    } else {
      assert (a + b)[1..] == a[1..] + b;
      CountCharAppend(a[1..], b, c);
    }
  }

  lemma {:induction false} CountCharZero(s: string, c: char)
    ensures CountChar(s, c) == 0 <==> c !in s
    decreases |s|
  {
    if |s| > 0 {
      CountCharZero(s[1..], c);
      assert s == [s[0]] + s[1..];
    }
  }

  /** Position of the first `c` in `s`, as `indexOf` with a one-character needle. */
  function IndexOf(s: string, c: char): (r: Option<nat>)
    ensures r.None? <==> c !in s
    ensures r.Some? ==> r.value < |s| && s[r.value] == c && c !in s[..r.value]
  {
    if |s| == 0 then None
    else if s[0] == c then Some(0)
    else match IndexOf(s[1..], c)
      case None => None
      case Some(i) =>
        assert s[..i + 1] == [s[0]] + s[1..][..i];
        Some(i + 1)
  }

  /** When `s` is `a`, then `c`, then anything, the first `c` is at `|a|`. */
  lemma IndexOfAfterPrefix(a: string, c: char, b: string)
    requires c !in a
    ensures IndexOf(a + [c] + b, c) == Some(|a|)
  {
    var s := a + [c] + b;
    assert s[|a|] == c;
    assert forall k :: 0 <= k < |a| ==> s[k] == a[k];
  }

  /** Joins `parts` with `sep` between neighbours, as `Array.prototype.join`. */
  function Join(parts: seq<string>, sep: char): string
  {
    if |parts| == 0 then ""
    else if |parts| == 1 then parts[0]
    else parts[0] + [sep] + Join(parts[1..], sep)
  }

  /** `s.split(sep)` for a one-character separator: every separator cuts,
      so an empty string still yields one (empty) piece. */
  function Split(s: string, sep: char): (parts: seq<string>)
    ensures |parts| == CountChar(s, sep) + 1
    ensures forall i :: 0 <= i < |parts| ==> sep !in parts[i]
    ensures Join(parts, sep) == s
    decreases |s|
  {
    match IndexOf(s, sep)
    case None =>
      CountCharZero(s, sep);
      [s]
    case Some(i) =>
      var rest := Split(s[i + 1..], sep);
      assert s == s[..i] + [sep] + s[i + 1..];
      CountCharAppend(s[..i] + [sep], s[i + 1..], sep);
      CountCharAppend(s[..i], [sep], sep);
      CountCharZero(s[..i], sep);
      assert ([s[..i]] + rest)[1..] == rest;
      [s[..i]] + rest
  }

  /** Splitting cuts at the first separator and then carries on with the rest. */
  lemma SplitAfterPrefix(a: string, sep: char, b: string)
    requires sep !in a
    ensures Split(a + [sep] + b, sep) == [a] + Split(b, sep)
  {
    var s := a + [sep] + b;
    IndexOfAfterPrefix(a, sep, b);
    assert s[..|a|] == a;
    assert s[|a| + 1..] == b;
  }

  /** The other direction of the round trip: pieces free of the separator
      come back unchanged from `split` after `join`. */
  lemma {:induction false} SplitJoin(parts: seq<string>, sep: char)
    requires |parts| >= 1
    requires forall i :: 0 <= i < |parts| ==> sep !in parts[i]
    ensures Split(Join(parts, sep), sep) == parts
    decreases |parts|
  {
    if |parts| == 1 {
      assert IndexOf(parts[0], sep) == None;
    } else {
      var rest := Join(parts[1..], sep);
      assert Join(parts, sep) == parts[0] + [sep] + rest;
      SplitAfterPrefix(parts[0], sep, rest);
      SplitJoin(parts[1..], sep);
      assert parts == [parts[0]] + parts[1..];
    }
  }

  predicate IsUpper(c: char) { 'A' <= c <= 'Z' }

  predicate IsLower(c: char) { 'a' <= c <= 'z' }

  /** `toLowerCase` on one character, restricted to ASCII letters. */
  function LowerChar(c: char): (r: char)
    ensures !IsUpper(r)
    ensures IsUpper(c) ==> IsLower(r) && r as int == c as int + 32
    ensures !IsUpper(c) ==> r == c
  {
    if IsUpper(c) then (c as int + 32) as char else c
  }

  /** `toUpperCase` on one character, restricted to ASCII letters. */
  function UpperChar(c: char): (r: char)
    ensures !IsLower(r)
    ensures IsLower(c) ==> IsUpper(r) && r as int == c as int - 32
    ensures !IsLower(c) ==> r == c
  {
    if IsLower(c) then (c as int - 32) as char else c
  }

  /** Two characters are the same letter up to ASCII case: equal, or one
      is an upper-case letter and the other its lower-case partner. */
  predicate SameUpToCase(x: char, y: char)
  {
    || x == y
    || (IsUpper(x) && y as int == x as int + 32)
    || (IsUpper(y) && x as int == y as int + 32)
  }

  /** `s.toLowerCase()`: same length, no upper-case letter left, and every
      character either kept or replaced by its lower-case partner. */
  function Lower(s: string): (r: string)
    ensures |r| == |s|
    ensures forall i :: 0 <= i < |r| ==> !IsUpper(r[i])
    ensures forall i :: 0 <= i < |s| ==> r[i] == s[i] || (IsUpper(s[i]) && r[i] as int == s[i] as int + 32)
  {
    seq(|s|, i requires 0 <= i < |s| => LowerChar(s[i]))
  }

  /** Lowering twice is lowering once, so a stored (lowered) service name
      is its own lookup key. */
  lemma LowerIdempotent(s: string)
    ensures Lower(Lower(s)) == Lower(s)
  {
  }

  /** Two names that differ only in the case of ASCII letters lower to the
      same key, and only such names do. */
  lemma LowerSameKey(a: string, b: string)
    ensures Lower(a) == Lower(b) <==> |a| == |b| && forall i :: 0 <= i < |a| ==> SameUpToCase(a[i], b[i])
  {
  }

  /** The `capitalize` helper: `''` for a non-string, otherwise the first
      character upper-cased and the rest kept. */
  function Capitalize(v: JsValue): (r: string)
    ensures v.NonString? ==> r == ""
    ensures v.JsString? ==> |r| == |v.s|
    ensures v.JsString? && |v.s| > 0 ==> r[0] == UpperChar(v.s[0]) && r[1..] == v.s[1..]
  {
    match v
    case NonString => ""
    case JsString(s) =>
      // charAt(0) of the empty string is '' and slice(1) is ''
      if |s| == 0 then "" else [UpperChar(s[0])] + s[1..]
  }

  /** `capitalize` only changes case: lowering its result gives the
      lowered argument. */
  lemma CapitalizeKeepsLetters(s: string)
    ensures Lower(Capitalize(JsString(s))) == Lower(s)
  {
  }

  /** `capitalize` is idempotent. */
  lemma CapitalizeIdempotent(v: JsValue)
    ensures Capitalize(JsString(Capitalize(v))) == Capitalize(v)
  {
  }
}
