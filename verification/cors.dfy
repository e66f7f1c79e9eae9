/** The cross-origin policy. The allowed origins come from a
    comma-separated setting; a request without an origin is always allowed;
    with nothing configured, local development origins are allowed;
    otherwise the origin must be listed exactly. */
module Cors {
  import opened Base
  import opened Text

  /** An origin as it can appear in the allow-list: non-empty, no space at
      either end. */
  predicate Clean(o: string) {
    o != "" && !IsJsSpace(o[0]) && !IsJsSpace(o[|o| - 1])
  }

  /** Each piece trimmed, the empty ones dropped, order kept. */
  function Entries(pieces: seq<string>): (r: seq<string>)
    ensures forall i :: 0 <= i < |r| ==> Clean(r[i])
    ensures forall x :: x in r <==> exists p :: p in pieces && Trim(p) == x && x != ""
    ensures |r| <= |pieces|
  {
    if pieces == [] then []
    else
      var t := Trim(pieces[0]);
      var rest := Entries(pieces[1..]);
      var head := if t == "" then [] else [t];
      EntriesCons(pieces, head, rest);
      head + rest
  }

  /** The entries of a list are those of its head followed by those of its
      tail. */
  lemma EntriesCons(pieces: seq<string>, head: seq<string>, rest: seq<string>)
    requires pieces != []
    requires head == if Trim(pieces[0]) == "" then [] else [Trim(pieces[0])]
    requires forall x :: x in rest <==> exists p :: p in pieces[1..] && Trim(p) == x && x != ""
    ensures forall x :: x in head + rest <==> exists p :: p in pieces && Trim(p) == x && x != ""
  {
    assert forall p :: p in pieces <==> p == pieces[0] || p in pieces[1..];
  }

  /** The allow-list read from the setting; an unset setting reads as the
      empty string. */
  function AllowList(setting: Option<string>): seq<string> {
    Entries(Split(if setting.Some? then setting.value else "", ','))
  }

  lemma {:induction false} EntriesOfClean(list: seq<string>)
    requires forall i :: 0 <= i < |list| ==> Clean(list[i])
    ensures Entries(list) == list
  {
    if list != [] {
      EntriesOfClean(list[1..]);
      assert Trim(list[0]) == list[0];
      assert Entries(list) == [list[0]] + Entries(list[1..]);
      assert list == [list[0]] + list[1..];
    }
  }

  /** Writing a list of clean, comma-free origins into the setting reads
      back as the same list. */
  lemma AllowListRoundTrip(list: seq<string>)
    requires forall i :: 0 <= i < |list| ==> Clean(list[i]) && ',' !in list[i]
    ensures AllowList(Some(Join(list, ','))) == list
  {
    if list == [] {
      assert Split("", ',') == [""];
    } else {
      SplitJoin(list, ',');
      EntriesOfClean(list);
    }
  }

  /** An unset setting, or one of only spaces and commas, allows nothing. */
  lemma UnsetIsEmpty()
    ensures AllowList(None) == []
    ensures AllowList(Some(" , ,")) == []
  {
    assert Split("", ',') == [""];
    assert Split(" , ,", ',') == [" ", " ", ""] by {
      assert " ," == " " + [','] + "";
      SplitPrefix(" ", "", ',');
      assert " , ," == " " + [','] + " ,";
      SplitPrefix(" ", " ,", ',');
    }
    assert Trim(" ") == "" by { assert TrimStart(" ") == ""; }
    assert Entries([""]) == [];
    assert Entries([" ", " ", ""]) == [] by {
      assert [" ", " ", ""][1..] == [" ", ""];
      assert [" ", ""][1..] == [""];
    }
  }

  lemma TrimPadded(a: string)
    requires Clean(a)
    ensures Trim(" " + a + " ") == a
  {
    var padded := " " + a + " ";
    assert padded[1..] == a + " ";
    assert TrimStart(a + " ") == a + " ";
    assert TrimStart(padded) == a + " ";
    assert (a + " ")[..|a|] == a;
    assert TrimEnd(a) == a;
    assert TrimEnd(a + " ") == a;
  }

  lemma SplitPadded(padded: string, b: string)
    requires ',' !in padded && ',' !in b
    ensures Split(padded + ",," + b, ',') == [padded, "", b]
  {
    assert padded + ",," + b == padded + [','] + ("" + [','] + b);
    SplitNoSep(b, ',');
    SplitPrefix("", b, ',');
    SplitPrefix(padded, "" + [','] + b, ',');
  }

  lemma EntriesTrimmed(padded: string, b: string)
    requires Clean(b)
    ensures Entries([padded, "", b]) == (if Trim(padded) == "" then [] else [Trim(padded)]) + [b]
  {
    assert Entries([b]) == [b] by { EntriesOfClean([b]); }
    assert Entries(["", b]) == [b] by { assert ["", b][1..] == [b]; }
    assert [padded, "", b][1..] == ["", b];
  }

  /** Spaces around entries and empty entries do not matter:
      `" a ,,b"` allows exactly `a` and `b`. */
  lemma PaddingIgnored(a: string, b: string)
    requires Clean(a) && Clean(b) && ',' !in a && ',' !in b
    ensures AllowList(Some(" " + a + " ,," + b)) == [a, b]
  {
    var padded := " " + a + " ";
    assert " " + a + " ,," + b == padded + ",," + b;
    SplitPadded(padded, b);
    EntriesPadded(a, b);
  }

  lemma EntriesPadded(a: string, b: string)
    requires Clean(a) && Clean(b)
    ensures Entries([" " + a + " ", "", b]) == [a, b]
  {
    TrimPadded(a);
    EntriesTrimmed(" " + a + " ", b);
  }

  datatype Decision = Allow | Deny(reason: string)

  function Refusal(origin: string): string {
    "Origin " + origin + " not allowed by CORS"
  }

  /** Origins allowed when nothing is configured, as written: any origin
      that merely begins with one of these texts. */
  predicate DevPrefix(origin: string) {
    StartsWith(origin, "http://localhost") || StartsWith(origin, "http://127.0.0.1")
  }

  /** The policy as written. An empty origin counts as no origin. */
  function Decide(allowed: seq<string>, origin: Option<string>): (d: Decision)
    ensures origin.None? || origin.value == "" ==> d == Allow
    ensures d.Deny? ==> origin.Some? && d.reason == Refusal(origin.value)
    ensures origin.Some? && origin.value in allowed ==> d == Allow
    ensures allowed != [] && origin.Some? && origin.value != "" ==>
      (d == Allow <==> origin.value in allowed)
    ensures allowed == [] && origin.Some? && origin.value != "" ==>
      (d == Allow <==> DevPrefix(origin.value))
  {
    if origin.None? || origin.value == "" then Allow
    else if |allowed| == 0 && DevPrefix(origin.value) then Allow
    else if origin.value in allowed then Allow
    else Deny(Refusal(origin.value))
  }

  /** With nothing configured, a remote host whose name merely begins with
      `localhost` is let through. */
  lemma PrefixAdmitsRemoteHost()
    ensures Decide([], Some("http://localhost.evil.example")) == Allow
    ensures HostOf("http://localhost.evil.example") == "localhost.evil.example"
  {
    assert StartsWith("http://localhost.evil.example", "http://localhost");
    var rest := "localhost.evil.example";
    assert "http://localhost.evil.example"[7..] == rest;
    SplitNoSep(rest, ':');
  }

  /** The host of an `http://` origin: what follows the scheme, up to a
      port separator. */
  function HostOf(origin: string): string
    requires StartsWith(origin, "http://")
  {
    Split(origin[7..], ':')[0]
  }

  /** A local development origin: `http://`, a loopback host, and
      optionally `:` and a non-empty numeric port. */
  predicate Loopback(origin: string) {
    && StartsWith(origin, "http://")
    && var parts := Split(origin[7..], ':');
    && parts[0] in ["localhost", "127.0.0.1"]
    && (|parts| == 1 || (|parts| == 2 && parts[1] != "" && AllDigits(parts[1])))
  }

  /** Every loopback origin, with or without a port, is recognised. */
  lemma LoopbackOrigins(host: string, port: string)
    requires host in ["localhost", "127.0.0.1"] && port != "" && AllDigits(port)
    ensures Loopback("http://" + host)
    ensures Loopback("http://" + host + ":" + port)
  {
    assert ':' !in host;
    assert ':' !in port by {
      forall i | 0 <= i < |port| ensures port[i] != ':' { assert IsDigit(port[i]); }
    }
    LoopbackHost(host);
    LoopbackWithPort(host, port);
  }

  lemma LoopbackHost(host: string)
    requires host in ["localhost", "127.0.0.1"] && ':' !in host
    ensures Loopback("http://" + host)
  {
    assert ("http://" + host)[7..] == host;
    SplitNoSep(host, ':');
  }

  lemma LoopbackWithPort(host: string, port: string)
    requires host in ["localhost", "127.0.0.1"] && ':' !in host
    requires port != "" && AllDigits(port) && ':' !in port
    ensures Loopback("http://" + host + ":" + port)
  {
    var o := "http://" + host + ":" + port;
    assert o[7..] == host + [':'] + port;
    SplitPrefix(host, port, ':');
    SplitNoSep(port, ':');
    assert Split(o[7..], ':') == [host, port];
  }

  lemma JoinHead(parts: seq<string>, sep: char)
    requires |parts| >= 1
    ensures Join(parts, sep) == parts[0] + (if |parts| == 1 then "" else [sep] + Join(parts[1..], sep))
  {
  }

  /** A recognised origin is exactly a loopback host and, at most, a port:
      nothing follows the host name except the port. */
  lemma LoopbackShape(origin: string)
    requires Loopback(origin)
    ensures var parts := Split(origin[7..], ':');
      origin == "http://" + parts[0] + (if |parts| == 1 then "" else ":" + parts[1])
  {
    var parts := Split(origin[7..], ':');
    JoinSplit(origin[7..], ':');
    JoinHead(parts, ':');
    if |parts| == 2 {
      assert Join(parts[1..], ':') == parts[1];
    }
    assert origin == origin[..7] + origin[7..];
  }

  /** The policy with the development default limited to loopback hosts. */
  function DecideStrict(allowed: seq<string>, origin: Option<string>): (d: Decision)
    ensures origin.None? || origin.value == "" ==> d == Allow
    ensures d.Deny? ==> origin.Some? && d.reason == Refusal(origin.value)
    ensures allowed != [] ==> d == Decide(allowed, origin)
    ensures allowed == [] && origin.Some? && origin.value != "" ==>
      (d == Allow <==> Loopback(origin.value))
  {
    if origin.None? || origin.value == "" then Allow
    else if |allowed| == 0 && Loopback(origin.value) then Allow
    else if origin.value in allowed then Allow
    else Deny(Refusal(origin.value))
  }

  /** Every recognised loopback origin passes the prefix test too. */
  lemma LoopbackHasDevPrefix(origin: string)
    requires Loopback(origin)
    ensures DevPrefix(origin)
  {
    LoopbackShape(origin);
    var parts := Split(origin[7..], ':');
    var head := "http://" + parts[0];
    assert |head| == 16;
    assert origin == head + (if |parts| == 1 then "" else ":" + parts[1]);
    assert origin[..16] == head;
  }

  /** Every host whose name merely begins with `localhost`, such as
      `localhost.evil.example`, passes the prefix test and is refused by
      the corrected policy. */
  lemma StrictRefusesRemoteHost(host: string)
    requires StartsWith(host, "localhost") && host != "localhost" && ':' !in host
    ensures Decide([], Some("http://" + host)) == Allow
    ensures DecideStrict([], Some("http://" + host)) == Deny(Refusal("http://" + host))
  {
    NotLoopback("http://", host);
    assert ("http://" + host)[..16] == "http://" + host[..9];
  }

  /** A host without a port that is not a loopback name is refused. */
  lemma NotLoopback(scheme: string, rest: string)
    requires scheme == "http://" && ':' !in rest
    requires rest != "localhost" && rest != "127.0.0.1"
    ensures !Loopback(scheme + rest)
  {
    assert (scheme + rest)[7..] == rest;
    SplitNoSep(rest, ':');
  }

  /** The corrected policy admits nothing the policy as written refuses. */
  lemma StrictWithinWritten(allowed: seq<string>, origin: Option<string>)
    ensures DecideStrict(allowed, origin) == Allow ==> Decide(allowed, origin) == Allow
  {
    if allowed == [] && origin.Some? && origin.value != "" && Loopback(origin.value) {
      LoopbackHasDevPrefix(origin.value);
    }
  }
}
