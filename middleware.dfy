/**
  The request middleware (middleware.ts): it extracts the client address from
  the `x-forwarded-for` header, `forwarded.split(',')[0].trim()`, or `''` when
  the header is absent or empty, and then lets every request through; the
  localhost-only rule that would have used the address is commented out.
*/
module Middleware {
  import opened Base

  // ---------------------------------------------------------------------
  // String.prototype.split with a one-character separator

  /** The fields of `s` between occurrences of `sep`; `""` has one empty field. */
  function Split(s: string, sep: char): (r: seq<string>)
    ensures |r| >= 1
    ensures forall k :: 0 <= k < |r| ==> sep !in r[k]
    decreases |s|
  {
    if s == [] then [[]]
    else
      var rest := Split(s[1..], sep);
      if s[0] == sep then [[]] + rest
      else [[s[0]] + rest[0]] + rest[1..]
  }

  /** The fields joined back together with `sep` between them. */
  function Join(parts: seq<string>, sep: char): string
    requires |parts| >= 1
    decreases |parts|
  {
    if |parts| == 1 then parts[0] else parts[0] + [sep] + Join(parts[1..], sep)
  }

  /** Splitting loses nothing: joining the fields restores the text. */
  lemma {:induction false} JoinSplit(s: string, sep: char)
    ensures Join(Split(s, sep), sep) == s
    decreases |s|
  {
    if s != [] {
      var rest := Split(s[1..], sep);
      JoinSplit(s[1..], sep);
      if s[0] != sep {
        if |rest| > 1 {
          assert rest == [rest[0]] + rest[1..];
        }
      }
    }
  }

  /** Splitting recovers the fields of a join, if no field holds `sep`. */
  lemma {:induction false} SplitJoin(parts: seq<string>, sep: char)
    requires |parts| >= 1
    requires forall k :: 0 <= k < |parts| ==> sep !in parts[k]
    ensures Split(Join(parts, sep), sep) == parts
    decreases |parts|, |parts[0]|
  {
    var p := parts[0];
    if p == [] {
      if |parts| > 1 {
        SplitJoin(parts[1..], sep);
        assert Join(parts, sep) == [sep] + Join(parts[1..], sep);
        assert ([sep] + Join(parts[1..], sep))[1..] == Join(parts[1..], sep);
      }
    } else {
      var parts' := [p[1..]] + parts[1..];
      assert forall k :: 1 <= k < |parts'| ==> parts'[k] == parts[k];
      SplitJoin(parts', sep);
      if |parts| == 1 {
        assert Join(parts, sep)[1..] == Join(parts', sep);
      } else {
        assert Join(parts', sep) == p[1..] + [sep] + Join(parts[1..], sep);
        assert Join(parts, sep)[1..] == Join(parts', sep);
      }
      assert p == [p[0]] + p[1..];
    }
  }

  /** The index of the first `sep` in `s`, or `|s|` when there is none. */
  function IndexOf(s: string, sep: char): (r: nat)
    ensures r <= |s| && sep !in s[..r]
    ensures r < |s| ==> s[r] == sep
    decreases |s|
  {
    if s == [] then 0
    else if s[0] == sep then 0
    else
      var r := 1 + IndexOf(s[1..], sep);
      assert s[..r] == [s[0]] + s[1..][..r - 1];
      r
  }

  /** The first field is the text before the first separator, or all of it. */
  lemma {:induction false} FirstFieldIsPrefix(s: string, sep: char)
    ensures Split(s, sep)[0] == s[..IndexOf(s, sep)]
    decreases |s|
  {
    if s != [] && s[0] != sep {
      FirstFieldIsPrefix(s[1..], sep);
      assert s[..IndexOf(s, sep)] == [s[0]] + s[1..][..IndexOf(s[1..], sep)];
    }
  }

  // ---------------------------------------------------------------------
  // String.prototype.trim

  /** ECMAScript WhiteSpace: tab, vertical tab, form feed, space, no-break
      space, byte order mark and the Unicode space separators (category Zs). */
  predicate IsWhiteSpace(c: char)
  {
    c in {'\t', '\U{B}', '\U{C}', ' ', '\U{A0}', '\U{FEFF}',
          '\U{1680}', '\U{2000}', '\U{2001}', '\U{2002}', '\U{2003}', '\U{2004}',
          '\U{2005}', '\U{2006}', '\U{2007}', '\U{2008}', '\U{2009}', '\U{200A}',
          '\U{202F}', '\U{205F}', '\U{3000}'}
  }

  /** ECMAScript LineTerminator: line feed, carriage return, line separator and
      paragraph separator. */
  predicate IsLineTerminator(c: char)
  {
    c in {'\n', '\r', '\U{2028}', '\U{2029}'}
  }

  /** The code points `trim` removes. Among ASCII characters these are exactly
      tab, line feed, vertical tab, form feed, carriage return and space. */
  predicate IsTrimmable(c: char)
    ensures c as int < 128 ==> (IsTrimmable(c) <==> 9 <= c as int <= 13 || c == ' ')
  {
    IsWhiteSpace(c) || IsLineTerminator(c)
  }

  predicate AllTrimmable(s: string)
  {
    forall i :: 0 <= i < |s| ==> IsTrimmable(s[i])
  }

  /** No trimmable code point at either end. */
  predicate IsTrimmed(s: string)
  {
    s == [] || (!IsTrimmable(s[0]) && !IsTrimmable(s[|s| - 1]))
  }

  /** `s` without its leading trimmable code points. */
  function TrimStart(s: string): (r: string)
    ensures |r| <= |s| && r == s[|s| - |r|..]
    ensures AllTrimmable(s[..|s| - |r|])
    ensures r == [] || !IsTrimmable(r[0])
    decreases |s|
  {
    if s != [] && IsTrimmable(s[0]) then
      var r := TrimStart(s[1..]);
      assert s[..|s| - |r|] == [s[0]] + s[1..][..|s| - 1 - |r|];
      r
    else s
  }

  /** `s` without its trailing trimmable code points. */
  function TrimEnd(s: string): (r: string)
    ensures r <= s
    ensures AllTrimmable(s[|r|..])
    ensures r == [] || !IsTrimmable(r[|r| - 1])
    decreases |s|
  {
    if s != [] && IsTrimmable(s[|s| - 1]) then
      var r := TrimEnd(s[..|s| - 1]);
      assert s[|r|..] == s[..|s| - 1][|r|..] + [s[|s| - 1]];
      r
    else s
  }

  /** `s.trim()`: the infix of `s` with no trimmable code point at either end
      and only trimmable code points outside it. */
  function Trim(s: string): (r: string)
    ensures IsTrimmed(r)
    ensures exists lo :: 0 <= lo <= |s| - |r| && r == s[lo..lo + |r|]
                         && AllTrimmable(s[..lo]) && AllTrimmable(s[lo + |r|..])
  {
    var t := TrimStart(s);
    var r := TrimEnd(t);
    var lo := |s| - |t|;
    assert r == s[lo..lo + |r|];
    assert s[lo + |r|..] == t[|r|..];
    r
  }

  /** Trimming adds no code point that was not there. */
  lemma TrimKeepsAbsent(s: string, c: char)
    requires c !in s
    ensures c !in Trim(s)
  {
  }

  /** Trimming twice is trimming once. */
  lemma TrimIdempotent(s: string)
    requires IsTrimmed(s)
    ensures Trim(s) == s
  {
  }

  // ---------------------------------------------------------------------
  // The middleware

  /** `forwarded ? forwarded.split(',')[0].trim() : ''`, where `forwarded`
      is the `x-forwarded-for` header (`null` when absent). */
  function ClientIp(forwarded: Option<string>): (ip: string)
    ensures forwarded.None? || forwarded == Some("") ==> ip == ""
    ensures ',' !in ip
    ensures IsTrimmed(ip)
  {
    if forwarded.None? || forwarded.value == "" then ""
    else
      var field := Split(forwarded.value, ',')[0];
      var ip := Trim(field);
      TrimKeepsAbsent(field, ',');
      ip
  }

  /** For a non-empty header, the address is the text before the first comma
      (or the whole header when there is none) with the surrounding white
      space removed. */
  lemma ClientIpIsTrimmedPrefix(h: string)
    requires h != ""
    ensures ClientIp(Some(h)) == Trim(h[..IndexOf(h, ',')])
  {
    FirstFieldIsPrefix(h, ',');
  }

  /** The outcome of the middleware: pass the request on, or refuse it. */
  datatype Decision = Next | Forbidden

  /** Every request is passed on, whatever address it comes from. */
  function Decide(forwarded: Option<string>): (d: Decision)
    ensures d == Next
  {
    var _ := ClientIp(forwarded);
    Next
  }
}
