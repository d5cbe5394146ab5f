/** The Python string operations the two extractor scripts are built from
    (str.startswith, str.replace, str.split(sep)[0], slicing, str(n), the
    format spec ":02d" and a character filter), modelled on seq<char>.
    The functions carry no postconditions of their own, so that the
    extractors' proofs see only their definitions; what they compute is
    stated by the lemmas beside them. */
module Text {

  /** s.startswith(p). */
  predicate StartsWith(s: string, p: string) {
    |p| <= |s| && s[..|p|] == p
  }

  /** s.replace(pat, rep): every non-overlapping occurrence of pat, found
      scanning from the left, becomes rep. For an empty pat, Python puts rep
      before every character and at the end. */
  function Replace(s: string, pat: string, rep: string): string
    decreases |s|
  {
    if pat == [] then
      if s == [] then rep else rep + [s[0]] + Replace(s[1..], pat, rep)
    else if StartsWith(s, pat) then rep + Replace(s[|pat|..], pat, rep)
    else if s == [] then []
    else [s[0]] + Replace(s[1..], pat, rep)
  }

  /** Every character of the result comes from s or from rep. */
  lemma {:induction false} ReplaceChars(s: string, pat: string, rep: string)
    ensures forall c :: c in Replace(s, pat, rep) ==> c in s || c in rep
    decreases |s|
  {
    if s == [] {
    } else if pat == [] {
      ReplaceChars(s[1..], pat, rep);
      assert forall c :: c in s[1..] ==> c in s;
    } else if StartsWith(s, pat) {
      ReplaceChars(s[|pat|..], pat, rep);
      assert forall c :: c in s[|pat|..] ==> c in s;
    } else {
      ReplaceChars(s[1..], pat, rep);
      assert forall c :: c in s[1..] ==> c in s;
    }
  }

  /** Replacing a single character by a single character is a pointwise map. */
  lemma {:induction false} ReplaceChar(s: string, a: char, b: char)
    ensures |Replace(s, [a], [b])| == |s|
    ensures forall i :: 0 <= i < |s| ==>
      Replace(s, [a], [b])[i] == if s[i] == a then b else s[i]
  {
    if s != [] {
      ReplaceChar(s[1..], a, b);
      assert StartsWith(s, [a]) <==> s[0] == a;
    }
  }

  /** A pattern holding a character the string lacks never matches. */
  lemma {:induction false} ReplaceAbsent(s: string, pat: string, rep: string, x: char)
    requires x in pat && x !in s
    ensures Replace(s, pat, rep) == s
  {
    if s != [] {
      ReplaceAbsent(s[1..], pat, rep, x);
      assert s == [s[0]] + s[1..];
    }
  }

  /** An occurrence at the front is replaced and scanning resumes after it. */
  lemma ReplaceFront(t: string, pat: string, rep: string)
    requires pat != []
    ensures Replace(pat + t, pat, rep) == rep + Replace(t, pat, rep)
  {
    assert (pat + t)[..|pat|] == pat;
    assert (pat + t)[|pat|..] == t;
  }

  /** Where no occurrence starts, the first character is copied. */
  lemma ReplaceCopies(s: string, pat: string, rep: string)
    requires pat != [] && s != [] && !StartsWith(s, pat)
    ensures Replace(s, pat, rep) == [s[0]] + Replace(s[1..], pat, rep)
  {
  }

  /** Slicing facts about the character at index n - 1. */
  lemma SliceAt(u: string, n: nat)
    requires 0 < n <= |u|
    ensures u[..n - 1] + [u[n - 1]] == u[..n]
    ensures u[n - 1..] != [] && u[n - 1..][0] == u[n - 1] && u[n - 1..][1..] == u[n..]
  {
  }

  /** Regrouping a concatenation around one character. */
  lemma Regroup(x: string, p: string, c: char, y: string, z: string, q: string)
    requires x == p + y && y == [c] + z && q == p + [c]
    ensures x == q + z
  {
  }

  /** The first n characters of u are copied when no occurrence of pat
      starts among them. */
  lemma {:induction false} ReplaceSkipsFrom(u: string, n: nat, pat: string, rep: string)
    requires pat != [] && n <= |u|
    requires forall k :: 0 <= k < n ==> !StartsWith(u[k..], pat)
    ensures Replace(u, pat, rep) == u[..n] + Replace(u[n..], pat, rep)
  {
    if n == 0 {
      assert u[0..] == u;
    } else {
      ReplaceSkipsFrom(u, n - 1, pat, rep);
      SliceAt(u, n);
      ReplaceCopies(u[n - 1..], pat, rep);
      Regroup(Replace(u, pat, rep), u[..n - 1], u[n - 1], Replace(u[n - 1..], pat, rep),
              Replace(u[n..], pat, rep), u[..n]);
    }
  }

  /** A prefix in which no occurrence of pat starts is copied unchanged. */
  lemma ReplaceSkips(a: string, b: string, pat: string, rep: string)
    requires pat != []
    requires forall k :: 0 <= k < |a| ==> !StartsWith(a[k..] + b, pat)
    ensures Replace(a + b, pat, rep) == a + Replace(b, pat, rep)
  {
    var u := a + b;
    forall k | 0 <= k < |a| ensures !StartsWith(u[k..], pat) {
      assert u[k..] == a[k..] + b;
    }
    ReplaceSkipsFrom(u, |a|, pat, rep);
    assert u[..|a|] == a && u[|a|..] == b;
  }

  /** No occurrence of pat starts inside a host that holds no ':' and is
      followed by nothing or by '/', when pat has a ':' at offset m with no
      '/' before it. */
  lemma NoMatchInHost(host: string, b: string, pat: string, m: nat)
    requires m < |pat| && pat[m] == ':' && forall i :: 0 <= i <= m ==> pat[i] != '/'
    requires ':' !in host && (b == [] || b[0] == '/')
    ensures forall k :: 0 <= k < |host| ==> !StartsWith(host[k..] + b, pat)
  {
    forall k | 0 <= k < |host| ensures !StartsWith(host[k..] + b, pat) {
      var x := host[k..] + b;
      if |host| - k > m {
        assert x[m] == host[k + m];
      } else if b != [] {
        assert x[|host| - k] == '/';
        assert |host| - k < |x|;
      }
    }
  }

  /** A string that starts with '/' still does after replacing a pattern that
      does not. */
  lemma ReplaceLeadingSlash(s: string, pat: string, rep: string)
    requires pat != [] && pat[0] != '/'
    requires s == [] || s[0] == '/'
    ensures var r := Replace(s, pat, rep); r == [] || r[0] == '/'
  {
  }

  /** Removing "https://" drops an https scheme and keeps an http one. */
  lemma StripHttps(scheme: string, t: string)
    requires scheme == "https://" || scheme == "http://" || scheme == ""
    ensures Replace(scheme + t, "https://", "") ==
            (if scheme == "http://" then scheme else "") + Replace(t, "https://", "")
  {
    if scheme == "https://" {
      ReplaceFront(t, scheme, "");
    } else if scheme == "http://" {
      HttpSchemeKept(t);
    } else {
      assert scheme + t == t;
    }
  }

  /** No "https://" starts inside an "http://" scheme. */
  lemma HttpSchemeKept(t: string)
    ensures Replace("http://" + t, "https://", "") == "http://" + Replace(t, "https://", "")
  {
    var http := "http://";
    forall k | 0 <= k < |http| ensures !StartsWith(http[k..] + t, "https://") {
      var x := http[k..] + t;
      if k == 0 { assert x[4] == ':'; } else { assert x[0] == http[k]; }
    }
    ReplaceSkips(http, t, "https://", "");
  }

  /** Both scheme removals together drop an http or https scheme from a
      remainder that holds no ':'. */
  lemma StripSchemes(scheme: string, rest: string)
    requires scheme == "https://" || scheme == "http://" || scheme == ""
    requires ':' !in rest
    ensures Replace(Replace(scheme + rest, "https://", ""), "http://", "") == rest
  {
    StripHttps(scheme, rest);
    ReplaceAbsent(rest, "https://", "", ':');
    ReplaceAbsent(rest, "http://", "", ':');
    if scheme == "http://" {
      assert Replace(scheme + rest, "https://", "") == scheme + rest;
      ReplaceFront(rest, scheme, "");
    } else {
      assert Replace(scheme + rest, "https://", "") == rest;
    }
  }

  /** In a + [sep] + x, the separator sits at index |a|, after a. */
  lemma SeparatorAt(a: string, sep: char, x: string)
    ensures var u := a + [sep] + x;
      u[|a|] == sep && u[..|a|] == a && forall i :: 0 <= i < |a| ==> u[i] == a[i]
  {
  }

  /** A run of digits ended by a non-digit is determined by the string it
      starts. */
  lemma DigitsThenSeparator(a: string, b: string, sep: char, x: string, y: string)
    requires AllDigits(a) && AllDigits(b) && !IsDigit(sep)
    requires a + [sep] + x == b + [sep] + y
    ensures a == b
  {
    SeparatorAt(a, sep, x);
    SeparatorAt(b, sep, y);
  }

  /** s.split(sep)[0]: the part of s before the first sep, or all of s. */
  function BeforeFirst(s: string, sep: char): string {
    if s == [] then []
    else if s[0] == sep then []
    else [s[0]] + BeforeFirst(s[1..], sep)
  }

  /** The result is the longest prefix of s without sep: a prefix, free of
      sep, and followed in s by sep unless it is all of s. */
  lemma {:induction false} BeforeFirstSpec(s: string, sep: char)
    ensures var r := BeforeFirst(s, sep);
      |r| <= |s| && r == s[..|r|] && sep !in r && (|r| < |s| ==> s[|r|] == sep)
  {
    if s != [] && s[0] != sep {
      BeforeFirstSpec(s[1..], sep);
    }
  }

  /** A field that holds no separator is read back whole from the front. */
  lemma {:induction false} BeforeFirstOfJoin(q: string, sep: char, rest: string)
    requires sep !in q
    ensures BeforeFirst(q + [sep] + rest, sep) == q
  {
    if q != [] {
      assert (q + [sep] + rest)[1..] == q[1..] + [sep] + rest;
      BeforeFirstOfJoin(q[1..], sep, rest);
    }
  }

  /** A string without the separator is its own first field. */
  lemma BeforeFirstAbsent(s: string, sep: char)
    requires sep !in s
    ensures BeforeFirst(s, sep) == s
  {
    BeforeFirstSpec(s, sep);
  }

  /** Cutting q + r at the first sep gives q when q lacks sep and r is empty
      or starts with sep. */
  lemma BeforeFirstOfHost(q: string, sep: char, r: string)
    requires sep !in q && (r == [] || r[0] == sep)
    ensures BeforeFirst(q + r, sep) == q
  {
    if r == [] {
      assert q + r == q;
      BeforeFirstAbsent(q, sep);
    } else {
      assert q + r == q + [sep] + r[1..];
      BeforeFirstOfJoin(q, sep, r[1..]);
    }
  }

  /** s[:n]. */
  function Take(s: string, n: nat): string {
    if |s| > n then s[..n] else s
  }

  /** str.isalnum restricted to ASCII letters and digits. */
  predicate IsAsciiAlnum(c: char) {
    ('a' <= c <= 'z') || ('A' <= c <= 'Z') || ('0' <= c <= '9')
  }

  /** The characters the domain filter keeps: letters, digits, '.', '-'
      and '_'. */
  predicate IsFilenameChar(c: char) {
    IsAsciiAlnum(c) || c == '.' || c == '-' || c == '_'
  }

  /** The string with every character the domain filter rejects dropped,
      the others kept in order. */
  function KeepFilenameChars(s: string): string {
    if s == [] then []
    else (if IsFilenameChar(s[0]) then [s[0]] else []) + KeepFilenameChars(s[1..])
  }

  /** The filter keeps every allowed character, as often as s has it, and
      nothing else. */
  lemma {:induction false} KeepFilenameCharsSpec(s: string)
    ensures var r := KeepFilenameChars(s);
      |r| <= |s| &&
      (forall i :: 0 <= i < |r| ==> IsFilenameChar(r[i])) &&
      (forall c :: IsFilenameChar(c) ==> multiset(r)[c] == multiset(s)[c])
  {
    if s != [] {
      KeepFilenameCharsSpec(s[1..]);
      assert s == [s[0]] + s[1..];
    }
  }

  /** The filter leaves a string of allowed characters as it is. */
  lemma {:induction false} KeepFilenameCharsIdentity(s: string)
    requires forall i :: 0 <= i < |s| ==> IsFilenameChar(s[i])
    ensures KeepFilenameChars(s) == s
  {
    if s != [] {
      KeepFilenameCharsIdentity(s[1..]);
      assert s == [s[0]] + s[1..];
    }
  }

  predicate IsDigit(c: char) {
    '0' <= c <= '9'
  }

  predicate AllDigits(s: string) {
    forall i :: 0 <= i < |s| ==> IsDigit(s[i])
  }

  function DigitChar(d: nat): char
    requires d < 10
  {
    ('0' as int + d) as char
  }

  /** The number a string of decimal digits denotes (leading zeros allowed). */
  function DecimalValue(s: string): nat
    requires AllDigits(s)
  {
    if s == [] then 0
    else DecimalValue(s[..|s| - 1]) * 10 + (s[|s| - 1] as int - '0' as int)
  }

  /** str(n) for a natural number. */
  function DecimalString(n: nat): string {
    if n < 10 then [DigitChar(n)] else DecimalString(n / 10) + [DigitChar(n % 10)]
  }

  /** str(n) is a non-empty string of digits that reads back as n. */
  lemma {:induction false} DecimalRoundTrip(n: nat)
    ensures var r := DecimalString(n);
      |r| >= 1 && AllDigits(r) && DecimalValue(r) == n
  {
    if n >= 10 {
      DecimalRoundTrip(n / 10);
      var r := DecimalString(n);
      assert r[..|r| - 1] == DecimalString(n / 10);
    }
  }

  /** A leading zero does not change the value of a digit string. */
  lemma {:induction false} DecimalLeadingZero(s: string)
    requires AllDigits(s)
    ensures AllDigits("0" + s) && DecimalValue("0" + s) == DecimalValue(s)
  {
    if s != [] {
      assert ("0" + s)[..|"0" + s| - 1] == "0" + s[..|s| - 1];
      DecimalLeadingZero(s[..|s| - 1]);
    }
  }

  /** f"{n:02d}": n in decimal, padded on the left with zeros to two digits. */
  function ZeroPad2(n: nat): string {
    var d := DecimalString(n);
    if |d| < 2 then "0" + d else d
  }

  /** The padded counter has at least two digits, exactly two below 10, and
      reads back as n. */
  lemma ZeroPad2Spec(n: nat)
    ensures var r := ZeroPad2(n);
      AllDigits(r) && DecimalValue(r) == n &&
      |r| == if n < 10 then 2 else |DecimalString(n)|
  {
    DecimalRoundTrip(n);
    if n < 10 {
      DecimalLeadingZero(DecimalString(n));
    } else {
      DecimalRoundTrip(n / 10);
    }
  }

  /** Distinct numbers are padded to distinct strings. */
  lemma ZeroPad2Injective(m: nat, n: nat)
    requires ZeroPad2(m) == ZeroPad2(n)
    ensures m == n
  {
    ZeroPad2Spec(m);
    ZeroPad2Spec(n);
  }
}
