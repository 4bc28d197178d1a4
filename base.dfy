/** The few JavaScript string and array built-ins that the chat front-end's core relies on,
    stated once and shared by the session model, the streaming fold and the formatter. */
module Base {

  datatype Option<+T> = None | Some(value: T)

  /** The concatenation of a list of strings, left to right: `parts.join('')`, and also the
      value of a buffer that was grown by `+=` with each part in turn. */
  function Concat(parts: seq<string>): string
  {
    if parts == [] then "" else parts[0] + Concat(parts[1..])
  }

  lemma {:induction false} ConcatAppend(a: seq<string>, b: seq<string>)
    ensures Concat(a + b) == Concat(a) + Concat(b)
  {
    if a == [] {
      assert a + b == b;
    } else {
      assert (a + b)[1..] == a[1..] + b;
      ConcatAppend(a[1..], b);
    }
  }

  /** One more part appended to the list appends it to the concatenation: the `+=` step. */
  lemma ConcatSnoc(parts: seq<string>, last: string)
    ensures Concat(parts + [last]) == Concat(parts) + last
  {
    ConcatAppend(parts, [last]);
    assert Concat([last]) == last + Concat([]);
  }

  /** A buffer grown by concatenation only ever extends: an earlier value is a prefix of a later one. */
  lemma ConcatPrefix(parts: seq<string>, i: nat, j: nat)
    requires i <= j <= |parts|
    ensures Concat(parts[..i]) <= Concat(parts[..j])
    ensures |Concat(parts[..j])| == |Concat(parts[..i])| + |Concat(parts[i..j])|
  {
    assert parts[..j] == parts[..i] + parts[i..j];
    ConcatAppend(parts[..i], parts[i..j]);
  }

  /** The buffer grows strictly when every part added is non-empty. */
  lemma {:induction false} ConcatNonEmpty(parts: seq<string>)
    requires forall k :: 0 <= k < |parts| ==> parts[k] != ""
    ensures |Concat(parts)| >= |parts|
  {
    if parts != [] {
      ConcatNonEmpty(parts[1..]);
    }
  }

  /** `s.startsWith(prefix)` */
  predicate StartsWith(s: string, prefix: string)
  {
    prefix <= s
  }

  /** `s.endsWith(suffix)` */
  predicate EndsWith(s: string, suffix: string)
  {
    |suffix| <= |s| && s[|s| - |suffix|..] == suffix
  }

  /** `s.slice(k, -k)` for a positive `k`: the string with `k` characters removed at each end,
      and the empty string when the two cut points cross. */
  function Slice(s: string, k: nat): (r: string)
    requires k > 0
    ensures |s| >= 2 * k ==> s == s[..k] + r + s[|s| - k..]
    ensures |s| < 2 * k ==> r == ""
  {
    if |s| >= 2 * k then s[k..|s| - k] else ""
  }

  /** The code points that `String.prototype.trim` removes: ECMAScript WhiteSpace
      (tab, vertical tab, form feed, space, no-break space, byte order mark, and the
      space separators of Unicode) and LineTerminator (line feed, carriage return,
      line and paragraph separators). */
  predicate IsSpace(c: char)
  {
    c == '\t' || c == '\n' || c == '\U{000B}' || c == '\U{000C}' || c == '\r' || c == ' '
    || c == '\U{00A0}' || c == '\U{1680}' || ('\U{2000}' <= c <= '\U{200A}')
    || c == '\U{2028}' || c == '\U{2029}' || c == '\U{202F}' || c == '\U{205F}'
    || c == '\U{3000}' || c == '\U{FEFF}'
  }

  predicate AllSpace(s: string)
  {
    forall i :: 0 <= i < |s| ==> IsSpace(s[i])
  }

  /** `s.trimStart()` */
  function TrimStart(s: string): string
  {
    if s != [] && IsSpace(s[0]) then TrimStart(s[1..]) else s
  }

  /** `s.trimEnd()` */
  function TrimEnd(s: string): string
  {
    if s != [] && IsSpace(s[|s| - 1]) then TrimEnd(s[..|s| - 1]) else s
  }

  /** `s.trim()` */
  function Trim(s: string): string
  {
    TrimEnd(TrimStart(s))
  }

  /** `trimStart` leaves the suffix of `s` behind its leading white space: what it drops is all
      white space, and what it keeps does not start with white space. */
  lemma {:induction false} TrimStartShape(s: string)
    ensures |TrimStart(s)| <= |s| && TrimStart(s) == s[|s| - |TrimStart(s)|..]
    ensures AllSpace(s[..|s| - |TrimStart(s)|])
    ensures TrimStart(s) == [] || !IsSpace(TrimStart(s)[0])
  {
    if s != [] && IsSpace(s[0]) {
      TrimStartShape(s[1..]);
      var r := TrimStart(s[1..]);
      assert s[1..][..|s| - 1 - |r|] == s[1..|s| - |r|];
      assert s[..|s| - |r|] == [s[0]] + s[1..|s| - |r|];
    } else {
      assert s[..0] == [];
    }
  }

  /** `trimEnd` leaves the prefix of `s` before its trailing white space. */
  lemma {:induction false} TrimEndShape(s: string)
    ensures |TrimEnd(s)| <= |s| && TrimEnd(s) == s[..|TrimEnd(s)|]
    ensures AllSpace(s[|TrimEnd(s)|..])
    ensures TrimEnd(s) == [] || !IsSpace(TrimEnd(s)[|TrimEnd(s)| - 1])
  {
    if s != [] && IsSpace(s[|s| - 1]) {
      var init := s[..|s| - 1];
      TrimEndShape(init);
      var r := TrimEnd(init);
      assert init[..|r|] == s[..|r|];
      assert s[|r|..] == init[|r|..] + [s[|s| - 1]];
    } else {
      assert s[|s|..] == [];
    }
  }

  /** `s.trim()` is empty exactly when every character of `s` is white space. */
  lemma TrimEmpty(s: string)
    ensures Trim(s) == "" <==> AllSpace(s)
  {
    TrimStartShape(s);
    var t := TrimStart(s);
    TrimEndShape(t);
    if t != [] {
      assert !IsSpace(t[0]);
      assert !AllSpace(t[|TrimEnd(t)|..]) || TrimEnd(t) != [];
      assert s[|s| - |t|] == t[0];
    } else {
      assert s[..|s| - |t|] == s;
    }
  }

  /** `s.find(p)`, as the index of the element found: the first element that satisfies `p`,
      and nothing when none does. */
  function FindFirst<T>(s: seq<T>, p: T -> bool): (r: Option<nat>)
    ensures r.Some? ==> r.value < |s| && p(s[r.value])
    ensures r.Some? ==> forall j :: 0 <= j < r.value ==> !p(s[j])
    ensures r.None? <==> forall j :: 0 <= j < |s| ==> !p(s[j])
  {
    if s == [] then None
    else if p(s[0]) then Some(0)
    else match FindFirst(s[1..], p)
      case None => None
      case Some(i) => Some(i + 1)
  }
}
