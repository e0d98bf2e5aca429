/**
 * The shared-link name sanitiser: every character outside the class
 * [A-Za-z0-9_\-.' ] plus U+00C0..U+017F is dropped, then the result is cut
 * to its first 32 characters. `\w` is ASCII-only here (the pattern has no
 * `u` flag). The names are taken as already percent-decoded strings.
 */
module Sanitize {
  import opened Wrappers
  import Utf16

  const MaxNameLength: nat := 32

  /** The regular expression's character class, on one character. */
  predicate Allowed(c: char) {
    ('A' <= c <= 'Z') || ('a' <= c <= 'z') || ('0' <= c <= '9') || c == '_'
    || c == '-' || c == '.' || c == '\'' || c == ' '
    || (0xC0 <= c as int <= 0x17F)
  }

  /** The same class on one UTF-16 code unit, which is what the pattern matches. */
  predicate UnitAllowed(u: Utf16.CodeUnit) {
    ('A' as int <= u <= 'Z' as int) || ('a' as int <= u <= 'z' as int)
    || ('0' as int <= u <= '9' as int) || u == '_' as int
    || u == '-' as int || u == '.' as int || u == '\'' as int || u == ' ' as int
    || (0xC0 <= u <= 0x17F)
  }

  predicate AllAllowed(s: string) {
    forall i :: 0 <= i < |s| ==> Allowed(s[i])
  }

  /** `replace(/[^...]/g, '')`: keep the allowed characters, in order. */
  function Filter(s: string): (r: string)
    ensures |r| <= |s|
    ensures AllAllowed(r)
  {
    if s == [] then []
    else if Allowed(s[0]) then [s[0]] + Filter(s[1..])
    else Filter(s[1..])
  }

  /** The same replacement, run over code units as JavaScript does. */
  function FilterUnits(u: seq<Utf16.CodeUnit>): (r: seq<Utf16.CodeUnit>)
    ensures |r| <= |u|
    ensures forall i :: 0 <= i < |r| ==> UnitAllowed(r[i])
    ensures forall i :: 0 <= i < |u| && UnitAllowed(u[i]) ==> u[i] in r
  {
    if u == [] then []
    else if UnitAllowed(u[0]) then [u[0]] + FilterUnits(u[1..])
    else FilterUnits(u[1..])
  }

  /** `.replace(...).slice(0, 32)`. */
  function Sanitize(s: string): (r: string)
    ensures |r| <= MaxNameLength
    ensures AllAllowed(r)
    ensures |r| == if |Filter(s)| <= MaxNameLength then |Filter(s)| else MaxNameLength
    ensures r <= Filter(s)
  {
    var f := Filter(s);
    if |f| <= MaxNameLength then f else f[..MaxNameLength]
  }

  lemma {:induction false} FilterAppend(a: string, b: string)
    ensures Filter(a + b) == Filter(a) + Filter(b)
  {
    if a == [] {
      assert a + b == b;
    } else {
      assert (a + b)[1..] == a[1..] + b;
      FilterAppend(a[1..], b);
    }
  }

  /** A string made only of allowed characters passes the filter unchanged. */
  lemma {:induction false} FilterKeepsAllowed(s: string)
    requires AllAllowed(s)
    ensures Filter(s) == s
  {
    if s != [] {
      FilterKeepsAllowed(s[1..]);
    }
  }

  /**
   * Filter drops exactly the disallowed characters: each allowed character
   * occurs as often in the output as in the input, every other one not at all.
   */
  lemma {:induction false} FilterCounts(s: string, c: char)
    ensures multiset(Filter(s))[c] == if Allowed(c) then multiset(s)[c] else 0
  {
    if s != [] {
      FilterCounts(s[1..], c);
      assert s == [s[0]] + s[1..];
      assert multiset(s) == multiset([s[0]]) + multiset(s[1..]);
    }
  }

  /** Sanitising a sanitised name changes nothing. */
  lemma SanitizeIdempotent(s: string)
    ensures Sanitize(Sanitize(s)) == Sanitize(s)
  {
    FilterKeepsAllowed(Sanitize(s));
  }

  /**
   * The filter over code units agrees with the filter over characters: an
   * astral character becomes two surrogate units, neither in the class, so
   * both are dropped just as the character is.
   */
  lemma {:induction false} FilterUnitsEncode(s: string)
    ensures FilterUnits(Utf16.Encode(s)) == Utf16.Encode(Filter(s))
  {
    if s != [] {
      var u := Utf16.Units(s[0]);
      FilterUnitsEncode(s[1..]);
      FilterUnitsAppend(u, Utf16.Encode(s[1..]));
      if Utf16.IsBmp(s[0]) {
        assert FilterUnits(u) == if Allowed(s[0]) then u else [];
      } else {
        assert FilterUnits(u[1..]) == [];
        assert FilterUnits(u) == [];
      }
      if Allowed(s[0]) {
        Utf16.EncodeAppend([s[0]], Filter(s[1..]));
        assert Utf16.Encode([s[0]]) == u;
      }
    }
  }

  lemma {:induction false} FilterUnitsAppend(a: seq<Utf16.CodeUnit>, b: seq<Utf16.CodeUnit>)
    ensures FilterUnits(a + b) == FilterUnits(a) + FilterUnits(b)
  {
    if a == [] {
      assert a + b == b;
    } else {
      assert (a + b)[1..] == a[1..] + b;
      FilterUnitsAppend(a[1..], b);
    }
  }

  /**
   * What the script computes on code units (filter, then `slice(0, 32)`) is
   * the UTF-16 form of Sanitize: the output is all BMP, so 32 code units are
   * 32 characters.
   */
  lemma SanitizeOnCodeUnits(s: string)
    ensures var f := FilterUnits(Utf16.Encode(s));
            (if |f| <= MaxNameLength then f else f[..MaxNameLength]) == Utf16.Encode(Sanitize(s))
    ensures |Utf16.Encode(Sanitize(s))| == |Sanitize(s)|
  {
    FilterUnitsEncode(s);
    var f := Filter(s);
    Utf16.EncodeBmp(f);
    Utf16.EncodeBmp(Sanitize(s));
    if |f| > MaxNameLength {
      Utf16.EncodeAppend(f[..MaxNameLength], f[MaxNameLength..]);
      assert f[..MaxNameLength] + f[MaxNameLength..] == f;
    }
  }

  /** A short allowed name followed by disallowed characters sanitises to the name. */
  lemma SanitizeDropsTail(name: string, tail: string)
    requires AllAllowed(name) && |name| <= MaxNameLength
    requires forall i :: 0 <= i < |tail| ==> !Allowed(tail[i])
    ensures Sanitize(name + tail) == name
  {
    FilterKeepsAllowed(name);
    FilterAppend(name, tail);
    forall c
      ensures multiset(Filter(tail))[c] == 0
    {
      FilterCounts(tail, c);
    }
    assert multiset(Filter(tail)) == multiset{};
  }

  /** "Jöhn_Doe-2!!" keeps its accented letter and loses the exclamation marks. */
  lemma SanitizeExample()
    ensures Sanitize("Jöhn_Doe-2" + "!!") == "Jöhn_Doe-2"
  {
    SanitizeDropsTail("Jöhn_Doe-2", "!!");
  }

  /** A greeting request as the link yields it: recipient and sender names. */
  datatype GreetingRequest = GreetingRequest(recipient: string, sender: string)

  predicate ValidRequest(g: GreetingRequest) {
    g.recipient != [] && |g.recipient| <= MaxNameLength && AllAllowed(g.recipient)
    && |g.sender| <= MaxNameLength && AllAllowed(g.sender)
  }

  /**
   * `checkSharedLink`: `to` and `from` are the query parameters (None when
   * absent). A greeting is due only when `to` is present and non-empty and
   * its sanitised form is still non-empty; an absent or empty `from` gives
   * the empty sender.
   */
  function CheckSharedLink(to: Option<string>, from: Option<string>): (r: Option<GreetingRequest>)
    ensures r.Some? <==> to.Some? && Sanitize(to.value) != []
    ensures r.Some? ==> ValidRequest(r.value)
    ensures r.Some? ==> r.value.recipient == Sanitize(to.value)
    ensures r.Some? ==> r.value.sender == if from.Some? then Sanitize(from.value) else []
  {
    if to.None? || to.value == [] then None
    else
      var name := Sanitize(to.value);
      var sender := if from.Some? && from.value != [] then Sanitize(from.value) else [];
      if name != [] then Some(GreetingRequest(name, sender)) else None
  }

  /** `?to=Asha&from=Ravi` asks for a greeting to Asha from Ravi. */
  lemma CheckSharedLinkExample()
    ensures CheckSharedLink(Some("Asha"), Some("Ravi")) == Some(GreetingRequest("Asha", "Ravi"))
  {
    FilterKeepsAllowed("Asha");
    FilterKeepsAllowed("Ravi");
  }
}
