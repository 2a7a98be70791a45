/**
 * The connection string the split carries.  MongoURI is the driver's class; only what
 * the split relies on is modelled: it is built from, and prints back as, its text, and
 * it names a list of hosts.
 */
module MongoUri {
  import opened Wrappers
  import opened Errors
  import opened Bytes

  const Scheme: Text := [0x6D, 0x6F, 0x6E, 0x67, 0x6F, 0x64, 0x62, 0x3A, 0x2F, 0x2F]  // "mongodb://"
  const Slash: uint8 := 0x2F
  const Comma: uint8 := 0x2C
  const At: uint8 := 0x40

  predicate IsConnectionString(t: Text) {
    |Scheme| <= |t| && t[..|Scheme|] == Scheme
  }

  datatype URI = URI(text: Text)

  /** A MongoURI object: one the constructor accepted. */
  type MongoURI = u: URI | IsConnectionString(u.text) witness URI(Scheme)

  /** `new MongoURI(text)`: rejects text that does not start with the scheme. */
  function Parse(t: Text): (r: Result<MongoURI, Error>)
    ensures r.Success? <==> IsConnectionString(t)
    ensures r.Success? ==> r.value.text == t
    ensures r.Failure? ==> r.error == IllegalArgument
  {
    if IsConnectionString(t) then Success(URI(t)) else Failure(IllegalArgument)
  }

  /** `MongoURI.toString`: the text it was built from, which parses back to the same URI. */
  function ToString(u: MongoURI): (r: Text)
    ensures IsConnectionString(r) && Parse(r) == Success(u)
  {
    u.text
  }

  /** The position of the last occurrence of b in s, if any. */
  function LastIndexOf(s: Text, b: uint8): (r: Option<nat>)
    ensures r.Some? ==> r.value < |s| && s[r.value] == b
                        && forall j :: r.value < j < |s| ==> s[j] != b
    ensures r.None? ==> forall j :: 0 <= j < |s| ==> s[j] != b
  {
    if s == [] then None
    else if s[|s| - 1] == b then Some(|s| - 1)
    else LastIndexOf(s[..|s| - 1], b)
  }

  /** The position of the first occurrence of b in s, if any. */
  function IndexOf(s: Text, b: uint8): (r: Option<nat>)
    ensures r.Some? ==> r.value < |s| && s[r.value] == b
                        && forall j :: 0 <= j < r.value ==> s[j] != b
    ensures r.None? ==> forall j :: 0 <= j < |s| ==> s[j] != b
  {
    if s == [] then None
    else if s[0] == b then Some(0)
    else match IndexOf(s[1..], b)
      case None => None
      case Some(i) => Some(i + 1)
  }

  /** The host list part: after the scheme, before the last '/', after "user:pass@". */
  function ServerPart(u: MongoURI): Text {
    var rest := u.text[|Scheme|..];
    var server := match LastIndexOf(rest, Slash)
      case None => rest
      case Some(i) => rest[..i];
    match IndexOf(server, At)
    case Some(i) => if i > 0 then server[i + 1..] else server
    case None => server
  }

  /** The parts of s between occurrences of sep. */
  function Split(s: Text, sep: uint8): (parts: seq<Text>)
    ensures |parts| >= 1
    ensures forall k, j :: 0 <= k < |parts| && 0 <= j < |parts[k]| ==> parts[k][j] != sep
  {
    match IndexOf(s, sep)
    case None => [s]
    case Some(i) => [s[..i]] + Split(s[i + 1..], sep)
  }

  /** The parts joined back with sep between them. */
  function Join(parts: seq<Text>, sep: uint8): Text
    requires |parts| >= 1
  {
    if |parts| == 1 then parts[0] else parts[0] + [sep] + Join(parts[1..], sep)
  }

  /** Splitting loses nothing: joining the parts gives back the text. */
  lemma {:induction false} JoinSplit(s: Text, sep: uint8)
    ensures Join(Split(s, sep), sep) == s
  {
    match IndexOf(s, sep)
    case None =>
    case Some(i) =>
      var head, tail := s[..i], s[i + 1..];
      var rest := Split(tail, sep);
      assert Split(s, sep) == [head] + rest;
      assert ([head] + rest)[1..] == rest;
      JoinSplit(tail, sep);
      assert s == head + [sep] + tail;
  }

  /** n empty parts. */
  function Empties(n: nat): (r: seq<Text>)
    ensures |r| == n && forall k :: 0 <= k < n ==> r[k] == []
  {
    seq(n, _ => [])
  }

  /** The parts once the trailing empty ones are dropped. */
  function TrimTrailingEmpty(parts: seq<Text>): (r: seq<Text>)
    ensures |r| <= |parts| && parts == r + Empties(|parts| - |r|)
    ensures r == [] || r[|r| - 1] != []
    decreases |parts|
  {
    if parts == [] || parts[|parts| - 1] != [] then parts
    else
      var init := parts[..|parts| - 1];
      var r := TrimTrailingEmpty(init);
      assert parts == init + [[]];
      assert Empties(|init| - |r|) + [[]] == Empties(|parts| - |r|);
      r
  }

  /** n empty parts joined with sep are n - 1 separators. */
  lemma {:induction false} JoinEmpties(n: nat, sep: uint8)
    requires n >= 1
    ensures Join(Empties(n), sep) == seq(n - 1, _ => sep)
  {
    if n > 1 {
      var parts := Empties(n);
      assert parts[1..] == Empties(n - 1);
      JoinEmpties(n - 1, sep);
      assert [] + [sep] + seq(n - 2, _ => sep) == seq(n - 1, _ => sep);
    }
  }

  /** Empty parts after the last one add only their separators. */
  lemma {:induction false} JoinPadded(parts: seq<Text>, n: nat, sep: uint8)
    requires |parts| >= 1
    ensures Join(parts + Empties(n), sep) == Join(parts, sep) + seq(n, _ => sep)
    decreases |parts|
  {
    var padded := parts + Empties(n);
    if |parts| > 1 {
      assert padded[1..] == parts[1..] + Empties(n);
      JoinPadded(parts[1..], n, sep);
      assert padded[0] == parts[0];
    } else if n > 0 {
      assert padded[1..] == Empties(n);
      JoinEmpties(n, sep);
      assert padded[0] == parts[0];
      assert [sep] + seq(n - 1, _ => sep) == seq(n, _ => sep);
    } else {
      assert padded == parts;
    }
  }

  /**
   * parts is how s splits at sep: no part holds sep, and the parts joined with sep are s up
   * to a run of trailing separators (all of s when there are no parts).
   */
  predicate SplitOf(s: Text, sep: uint8, parts: seq<Text>) {
    (forall k, j :: 0 <= k < |parts| && 0 <= j < |parts[k]| ==> parts[k][j] != sep) &&
    (parts != [] ==>
      var joined := Join(parts, sep);
      |joined| <= |s| && s == joined + seq(|s| - |joined|, _ => sep)) &&
    (parts == [] ==> forall j :: 0 <= j < |s| ==> s[j] == sep)
  }

  /** Text without the separator is its own one part. */
  lemma {:induction false} SplitOfWhole(s: Text, sep: uint8)
    requires IndexOf(s, sep).None?
    ensures SplitOf(s, sep, [s])
  {
    assert s == Join([s], sep) + seq(0, _ => sep);
  }

  /** Text that splits into empty parts only is all separators. */
  lemma {:induction false} SplitOfNone(s: Text, sep: uint8, n: nat)
    requires n >= 1 && Join(Empties(n), sep) == s
    ensures SplitOf(s, sep, [])
  {
    JoinEmpties(n, sep);
  }

  /** Dropping the trailing empty parts of a split leaves a split up to trailing separators. */
  lemma {:induction false} SplitOfPrefix(s: Text, sep: uint8, parts: seq<Text>, hosts: seq<Text>)
    requires |parts| >= 1 && Join(parts, sep) == s
    requires forall k, j :: 0 <= k < |parts| && 0 <= j < |parts[k]| ==> parts[k][j] != sep
    requires hosts != [] && |hosts| <= |parts| && parts == hosts + Empties(|parts| - |hosts|)
    ensures SplitOf(s, sep, hosts)
  {
    assert forall k :: 0 <= k < |hosts| ==> hosts[k] == parts[k];
    JoinPadded(hosts, |parts| - |hosts|, sep);
  }

  /** The parts of s, trailing empty ones dropped, still split s. */
  lemma {:induction false} SplitOfTrimmed(s: Text, sep: uint8)
    ensures SplitOf(s, sep, TrimTrailingEmpty(Split(s, sep)))
  {
    var parts := Split(s, sep);
    JoinSplit(s, sep);
    var hosts := TrimTrailingEmpty(parts);
    if hosts == [] {
      assert parts == Empties(|parts|);
      SplitOfNone(s, sep, |parts|);
    } else {
      SplitOfPrefix(s, sep, parts, hosts);
    }
  }

  /**
   * Java's `s.split(sep)` for a one-character separator: text without the separator is the
   * one part; otherwise the parts between separators, trailing empty ones dropped.
   */
  function JavaSplit(s: Text, sep: uint8): (parts: seq<Text>)
    ensures SplitOf(s, sep, parts)
    ensures IndexOf(s, sep).None? ==> parts == [s]
    ensures IndexOf(s, sep).Some? ==> parts == [] || parts[|parts| - 1] != []
  {
    if IndexOf(s, sep).None? then
      SplitOfWhole(s, sep);
      [s]
    else
      SplitOfTrimmed(s, sep);
      TrimTrailingEmpty(Split(s, sep))
  }

  /** `MongoURI.getHosts`: the host part split at commas. */
  function Hosts(u: MongoURI): (hosts: seq<Text>)
    ensures SplitOf(ServerPart(u), Comma, hosts)
    ensures IndexOf(ServerPart(u), Comma).None? ==> hosts == [ServerPart(u)]
    ensures IndexOf(ServerPart(u), Comma).Some? ==> hosts == [] || hosts[|hosts| - 1] != []
  {
    JavaSplit(ServerPart(u), Comma)
  }

  /** ",".split(",") has no parts, and "a,".split(",") the one part "a". */
  lemma {:induction false} SplitDropsTrailing()
    ensures JavaSplit([Comma], Comma) == []
    ensures JavaSplit([0x61, Comma], Comma) == [[0x61]]
  {
    assert Split([], Comma) == [[]];
    var t: Text := [Comma];
    assert IndexOf(t, Comma) == Some(0);
    assert t[..0] == [] && t[1..] == [];
    assert Split(t, Comma) == [[], []];
    var v: Text := [0x61, Comma];
    assert IndexOf(v, Comma) == Some(1);
    assert v[..1] == [0x61] && v[2..] == [];
    assert Split(v, Comma) == [[0x61], []];
  }

  /** "mongodb://a," has the one host "a", and "mongodb://," has none. */
  lemma {:induction false} HostsDropTrailing()
    ensures Hosts(URI(Scheme + [0x61, Comma])) == [[0x61]]
    ensures Hosts(URI(Scheme + [Comma])) == []
  {
    var a, c := URI(Scheme + [0x61, Comma]), URI(Scheme + [Comma]);
    assert a.text[|Scheme|..] == [0x61, Comma] && c.text[|Scheme|..] == [Comma];
    assert ServerPart(a) == [0x61, Comma] && ServerPart(c) == [Comma];
    SplitDropsTrailing();
  }
}
