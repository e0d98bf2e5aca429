/**
 * Building the share link (`buildShareUrl`) and the share button's guard.
 * The form-urlencoded serialisation of one key or value is a parameter
 * `enc`; the clipboard's success is a parameter `copied`.
 */
module Share {
  import opened Wrappers

  /** The characters `String.prototype.trim` removes: white space and line terminators. */
  predicate IsJsWhitespace(c: char) {
    c == '\t' || c == '\n' || c as int == 0x0B || c as int == 0x0C || c == '\r' || c == ' '
    || c as int == 0xA0 || c as int == 0x1680 || (0x2000 <= c as int <= 0x200A)
    || c as int == 0x2028 || c as int == 0x2029 || c as int == 0x202F
    || c as int == 0x205F || c as int == 0x3000 || c as int == 0xFEFF
  }

  predicate AllWhitespace(s: string) {
    forall i :: 0 <= i < |s| ==> IsJsWhitespace(s[i])
  }

  function TrimStart(s: string): (r: string) {
    if s != [] && IsJsWhitespace(s[0]) then TrimStart(s[1..]) else s
  }

  function TrimEnd(s: string): (r: string) {
    if s != [] && IsJsWhitespace(s[|s| - 1]) then TrimEnd(s[..|s| - 1]) else s
  }

  /** `trim()`. */
  function Trim(s: string): (r: string)
    ensures |r| <= |s|
    ensures r != [] ==> !IsJsWhitespace(r[0]) && !IsJsWhitespace(r[|r| - 1])
    ensures AllWhitespace(s) <==> r == []
  {
    TrimStartSpec(s);
    TrimEndSpec(TrimStart(s));
    TrimEnd(TrimStart(s))
  }

  /** TrimStart drops exactly the leading white space. */
  lemma {:induction false} TrimStartSpec(s: string)
    ensures var r := TrimStart(s);
      |r| <= |s| && r == s[|s| - |r|..] && AllWhitespace(s[..|s| - |r|])
      && (r != [] ==> !IsJsWhitespace(r[0]))
  {
    if s != [] && IsJsWhitespace(s[0]) {
      TrimStartSpec(s[1..]);
      var r := TrimStart(s);
      assert s[..|s| - |r|] == [s[0]] + s[1..][..|s| - 1 - |r|];
    }
  }

  /** TrimEnd drops exactly the trailing white space. */
  lemma {:induction false} TrimEndSpec(s: string)
    ensures var r := TrimEnd(s);
      |r| <= |s| && r == s[..|r|] && AllWhitespace(s[|r|..])
      && (r != [] ==> !IsJsWhitespace(r[|r| - 1]))
  {
    if s != [] && IsJsWhitespace(s[|s| - 1]) {
      var t := s[..|s| - 1];
      TrimEndSpec(t);
      var r := TrimEnd(s);
      assert s[|r|..] == t[|r|..] + [s[|s| - 1]];
    }
  }

  /**
   * The result of `trim()` is a slice of the input that neither starts nor
   * ends with white space, and only white space was cut off either side.
   */
  lemma TrimSpec(s: string)
    ensures var r := Trim(s);
      (exists i :: 0 <= i <= i + |r| <= |s| && r == s[i..i + |r|]
                   && AllWhitespace(s[..i]) && AllWhitespace(s[i + |r|..]))
      && (r != [] ==> !IsJsWhitespace(r[0]) && !IsJsWhitespace(r[|r| - 1]))
  {
    var t := TrimStart(s);
    TrimStartSpec(s);
    TrimEndSpec(t);
    var r := TrimEnd(t);
    var i := |s| - |t|;
    assert r == s[i..i + |r|];
    assert s[i + |r|..] == t[|r|..];
  }

  /** Trimming a trimmed string changes nothing. */
  lemma TrimIdempotent(s: string)
    ensures Trim(Trim(s)) == Trim(s)
  {
    var r := Trim(s);
    TrimSpec(s);
    TrimStartSpec(r);
    TrimEndSpec(r);
    if r != [] {
      assert TrimStart(r) == r;
    }
  }

  /** `(input && input.value.trim()) || ''`: a missing input reads as empty. */
  function FieldValue(input: Option<string>): (v: string)
    ensures input.None? ==> v == []
    ensures input.Some? ==> v == Trim(input.value)
  {
    if input.Some? then Trim(input.value) else []
  }

  datatype Param = Param(key: string, value: string)

  predicate HasKey(ps: seq<Param>, k: string) {
    exists i :: 0 <= i < |ps| && ps[i].key == k
  }

  /**
   * The parameters `buildShareUrl` sets, given the name and the sender
   * field's trimmed value: `to` when the name is non-empty, then `from` when
   * the sender is non-empty.
   */
  function ShareParams(name: string, sender: string): (ps: seq<Param>)
    ensures HasKey(ps, "to") <==> name != []
    ensures HasKey(ps, "from") <==> sender != []
    ensures forall i :: 0 <= i < |ps| && ps[i].key == "to" ==> i == 0 && ps[i].value == name
    ensures forall i :: 0 <= i < |ps| && ps[i].key == "from" ==> i == |ps| - 1 && ps[i].value == sender
    ensures forall i :: 0 <= i < |ps| ==> ps[i].key == "to" || ps[i].key == "from"
  {
    var to := if name != [] then [Param("to", name)] else [];
    var from := if sender != [] then [Param("from", sender)] else [];
    assert "to" != "from" by { assert "to"[0] != "from"[0]; }
    var ps := to + from;
    assert name != [] ==> ps[0] == Param("to", name);
    assert sender != [] ==> ps[|ps| - 1] == Param("from", sender);
    assert |ps| == (if name != [] then 1 else 0) + (if sender != [] then 1 else 0);
    ps
  }

  /** `URLSearchParams.toString()`: `key=value` pairs joined by '&'. */
  function Serialize(ps: seq<Param>, enc: string -> string): (r: string)
    ensures r == [] <==> ps == []
  {
    if ps == [] then []
    else if |ps| == 1 then enc(ps[0].key) + "=" + enc(ps[0].value)
    else enc(ps[0].key) + "=" + enc(ps[0].value) + "&" + Serialize(ps[1..], enc)
  }

  /**
   * With an encoder that never emits the separators (as form-urlencoding
   * does not), the query holds one '=' per parameter and one '&' between
   * consecutive parameters.
   */
  lemma {:induction false} SerializeSeparators(ps: seq<Param>, enc: string -> string)
    requires forall x :: '=' !in enc(x) && '&' !in enc(x)
    ensures multiset(Serialize(ps, enc))['='] == |ps|
    ensures multiset(Serialize(ps, enc))['&'] == if ps == [] then 0 else |ps| - 1
  {
    if |ps| > 1 {
      SerializeSeparators(ps[1..], enc);
    }
  }

  lemma SerializeTwo(a: Param, b: Param, enc: string -> string)
    ensures Serialize([a, b], enc) == enc(a.key) + "=" + enc(a.value) + "&" + enc(b.key) + "=" + enc(b.value)
  {
    assert [a, b][1..] == [b];
  }

  /**
   * The serialised query: `to=<name>` exactly when the name is non-empty,
   * `from=<sender>` exactly when the sender is, `to` first.
   */
  lemma QueryShape(name: string, sender: string, enc: string -> string)
    ensures var q := Serialize(ShareParams(name, sender), enc);
      && (name != [] && sender == [] ==> q == enc("to") + "=" + enc(name))
      && (name != [] && sender != [] ==> q == enc("to") + "=" + enc(name) + "&" + enc("from") + "=" + enc(sender))
      && (name == [] && sender != [] ==> q == enc("from") + "=" + enc(sender))
      && (name == [] && sender == [] ==> q == [])
  {
    var ps := ShareParams(name, sender);
    if name != [] && sender != [] {
      assert ps == [Param("to", name), Param("from", sender)];
      SerializeTwo(Param("to", name), Param("from", sender), enc);
    } else if name != [] {
      assert ps == [Param("to", name)];
    } else if sender != [] {
      assert ps == [Param("from", sender)];
    } else {
      assert ps == [];
    }
  }

  /**
   * `buildShareUrl`: the page address, '?', then the query, which names the
   * recipient when there is one and the trimmed sender when there is one.
   */
  function BuildShareUrl(base: string, name: string, senderInput: Option<string>, enc: string -> string): (url: string)
    ensures |url| > |base| && url[..|base| + 1] == base + "?"
    ensures var sender := FieldValue(senderInput);
      && (name != [] && sender == [] ==> url == base + "?" + enc("to") + "=" + enc(name))
      && (name != [] && sender != [] ==> url == base + "?" + enc("to") + "=" + enc(name) + "&" + enc("from") + "=" + enc(sender))
      && (name == [] && sender != [] ==> url == base + "?" + enc("from") + "=" + enc(sender))
      && (name == [] && sender == [] ==> url == base + "?")
  {
    var sender := FieldValue(senderInput);
    QueryShape(name, sender, enc);
    var url := base + "?" + Serialize(ShareParams(name, sender), enc);
    assert url[..|base| + 1] == base + "?";
    url
  }

  /** A share link for "Asha" with no sender carries `to=Asha` and no `from`. */
  lemma ShareUrlExample(base: string, enc: string -> string)
    requires enc("to") == "to" && enc("Asha") == "Asha"
    ensures BuildShareUrl(base, "Asha", None, enc) == base + "?to=Asha"
    ensures !HasKey(ShareParams("Asha", FieldValue(None)), "from")
  {
  }

  /** What a click on the share button hands to the clipboard and the toast it shows. */
  datatype ClickResult = ClickResult(clipboard: Option<string>, toast: string)

  const EmptyNameToast := "Please enter a friend's name"
  const CopiedToast := "Link copied to clipboard"
  const CopyFailedToast := "Copy failed — select & copy"

  /**
   * The share button's click handler: an empty trimmed name only shows a
   * toast and builds no link; otherwise the link for the trimmed name is
   * copied and the toast reports whether the copy worked.
   */
  function ShareClick(friendInput: Option<string>, senderInput: Option<string>, base: string,
                      enc: string -> string, copied: bool): (r: ClickResult)
    ensures r.clipboard.None? <==> FieldValue(friendInput) == []
    ensures r.clipboard.None? ==> r.toast == EmptyNameToast
    ensures r.clipboard.Some? ==>
              r.clipboard.value == BuildShareUrl(base, FieldValue(friendInput), senderInput, enc)
              && HasKey(ShareParams(FieldValue(friendInput), FieldValue(senderInput)), "to")
              && r.toast == (if copied then CopiedToast else CopyFailedToast)
  {
    var name := FieldValue(friendInput);
    if name == [] then ClickResult(None, EmptyNameToast)
    else
      var url := BuildShareUrl(base, name, senderInput, enc);
      ClickResult(Some(url), if copied then CopiedToast else CopyFailedToast)
  }
}
