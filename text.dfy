/** String normalisation used when a guess is scored: an ASCII model of
    JavaScript's String.prototype.trim and String.prototype.toLowerCase.
    Whitespace is the fixed set {space, tab, line feed, vertical tab,
    form feed, carriage return}; case folding maps 'A'..'Z' to 'a'..'z'
    and leaves every other character alone. */
module Text {

  predicate IsSpace(c: char)
  {
    c == ' ' || c == '\t' || c == '\n' || c == '\U{000B}' || c == '\U{000C}' || c == '\r'
  }

  /** Every character of s is whitespace (the empty string included). */
  predicate AllSpace(s: string)
  {
    forall k :: 0 <= k < |s| ==> IsSpace(s[k])
  }

  /** s neither starts nor ends with whitespace. */
  predicate Trimmed(s: string)
  {
    s == [] || (!IsSpace(s[0]) && !IsSpace(s[|s| - 1]))
  }

  /** String.prototype.trim, in two halves: leading whitespace first. */
  function TrimStart(s: string): string
  {
    if s != [] && IsSpace(s[0]) then TrimStart(s[1..]) else s
  }

  function TrimEnd(s: string): string
  {
    if s != [] && IsSpace(s[|s| - 1]) then TrimEnd(s[..|s| - 1]) else s
  }

  function Trim(s: string): string
  {
    TrimEnd(TrimStart(s))
  }

  /** TrimStart drops a whitespace prefix of s, and only that: what is left
      is a suffix of s that does not start with whitespace. */
  lemma {:induction false} TrimStartSpec(s: string)
    ensures var r := TrimStart(s);
      |r| <= |s| && r == s[|s| - |r|..] && AllSpace(s[..|s| - |r|]) &&
      (r != [] ==> !IsSpace(r[0]))
  {
    if s != [] && IsSpace(s[0]) {
      TrimStartSpec(s[1..]);
      var r := TrimStart(s);
      assert s[..|s| - |r|] == [s[0]] + s[1..][..|s| - 1 - |r|];
    }
  }

  /** TrimEnd drops a whitespace suffix of s, and only that: what is left is
      a prefix of s that does not end with whitespace. */
  lemma {:induction false} TrimEndSpec(s: string)
    ensures var r := TrimEnd(s);
      |r| <= |s| && r == s[..|r|] && AllSpace(s[|r|..]) &&
      (r != [] ==> !IsSpace(r[|r| - 1]))
  {
    if s != [] && IsSpace(s[|s| - 1]) {
      var t := s[..|s| - 1];
      TrimEndSpec(t);
      var r := TrimEnd(s);
      assert s[|r|..] == t[|r|..] + [s[|s| - 1]];
    }
  }

  /** Trim leaves no whitespace at either end, never lengthens, yields the
      empty string exactly for all-whitespace input, and keeps a string
      that has no whitespace at its ends. */
  lemma TrimSpec(s: string)
    ensures Trimmed(Trim(s))
    ensures |Trim(s)| <= |s|
    ensures Trim(s) == [] <==> AllSpace(s)
    ensures Trimmed(s) ==> Trim(s) == s
  {
    var t := TrimStart(s);
    TrimStartSpec(s);
    TrimEndSpec(t);
    assert t != [] ==> TrimEnd(t)[0] == t[0];
    assert TrimEnd(t) == [] ==> AllSpace(t[0..]);
    assert t == [] ==> s[..|s|] == s;
  }

  /** Leading whitespace in front of a string that does not start with
      whitespace is exactly what TrimStart removes. */
  lemma {:induction false} TrimStartSkips(p: string, t: string)
    requires AllSpace(p)
    requires t == [] || !IsSpace(t[0])
    ensures TrimStart(p + t) == t
  {
    if p != [] {
      assert (p + t)[1..] == p[1..] + t;
      TrimStartSkips(p[1..], t);
    }
  }

  /** Trailing whitespace behind a string that does not end with whitespace
      is exactly what TrimEnd removes. */
  lemma {:induction false} TrimEndSkips(t: string, q: string)
    requires AllSpace(q)
    requires t == [] || !IsSpace(t[|t| - 1])
    ensures TrimEnd(t + q) == t
  {
    if q != [] {
      var n := |q| - 1;
      assert (t + q)[..|t + q| - 1] == t + q[..n];
      TrimEndSkips(t, q[..n]);
    }
  }

  /** Trim undoes any whitespace padding: trimming v surrounded by whitespace
      gives back v itself whenever v has no whitespace at its ends. */
  lemma TrimPadding(p: string, v: string, q: string)
    requires AllSpace(p) && AllSpace(q) && Trimmed(v)
    ensures Trim(p + v + q) == v
  {
    if v == [] {
      assert p + v + q == p + q;
      assert AllSpace(p + q);
      TrimSpec(p + q);
    } else {
      assert p + v + q == p + (v + q);
      TrimStartSkips(p, v + q);
      TrimEndSkips(v, q);
    }
  }

  /** Case folding of one character: 'A'..'Z' to 'a'..'z'. */
  function LowerChar(c: char): char
  {
    if 'A' <= c <= 'Z' then (c as int - 'A' as int + 'a' as int) as char else c
  }

  predicate IsUpper(c: char)
  {
    'A' <= c <= 'Z'
  }

  /** String.prototype.toLowerCase, character by character. */
  function ToLower(s: string): string
  {
    seq(|s|, i requires 0 <= i < |s| => LowerChar(s[i]))
  }

  /** toLowerCase keeps the length, folds every A-Z letter to its lower-case
      form and keeps every other character; so no upper-case letter is left
      and whitespace stays exactly where it was. */
  lemma ToLowerSpec(s: string)
    ensures |ToLower(s)| == |s|
    ensures forall i :: 0 <= i < |s| ==> ToLower(s)[i] == LowerChar(s[i])
    ensures forall i :: 0 <= i < |s| ==> !IsUpper(ToLower(s)[i])
    ensures forall i :: 0 <= i < |s| ==> (IsSpace(ToLower(s)[i]) <==> IsSpace(s[i]))
  {
  }

  /** Lower-casing twice is lower-casing once. */
  lemma ToLowerIdempotent(s: string)
    ensures ToLower(ToLower(s)) == ToLower(s)
  {
  }
}
