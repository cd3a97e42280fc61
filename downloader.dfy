/**
 * The resilient downloader's own logic (lib/instance/cook/downloader.rb):
 * the hostname check and DNS table built at construction, the fatal-error
 * predicate handed to the request balancer, resource sanitisation, byte
 * scaling, the `details` summary, parsing of balancer messages and the
 * counters `download` resets. DNS is an oracle (a map from hostname to the
 * addresses `getaddrinfo` returns; a missing hostname is a lookup that
 * raises) and the per-hostname shuffle is an arbitrary permutation.
 */
module Cook {
  import opened Common
  import opened RubyText

  // ---------------------------------------------------------------------
  // Exceptions and the balancer's fatal predicate

  /** An exception raised by a transfer: the balancer's `NoResult` or any other class. */
  datatype Exception = NoResult(message: string) | OtherException(className: string)

  /**
   * An error seen by the balancer's fatal lambda: whether its class is in the
   * balancer's default fatal set, and its `http_code` (None when the error has
   * no such method or the code is nil).
   */
  datatype RequestError = RequestError(className: string, inDefaultFatalSet: bool, httpCode: Option<int>)

  /**
   * The `:fatal` lambda given to the balancer. A fatal error aborts the
   * whole download; any other error moves on to the next endpoint.
   */
  function IsFatal(e: RequestError): (fatal: bool)
    ensures fatal <==> e.inDefaultFatalSet
                       || (e.httpCode.Some? && 400 <= e.httpCode.value < 500 && e.httpCode.value != 408)
  {
    if e.inDefaultFatalSet then true
    else if e.httpCode.Some? then
      var code := e.httpCode.value;
      (code >= 400 && code < 500) && (code != 408 && code != 500)
    else false
  }

  /** 404 aborts; 408, 500, 503, 302 and a missing code fail over to the next endpoint. */
  lemma FatalCodes(name: string)
    ensures IsFatal(RequestError(name, false, Some(404)))
    ensures !IsFatal(RequestError(name, false, Some(408)))
    ensures !IsFatal(RequestError(name, false, Some(500)))
    ensures !IsFatal(RequestError(name, false, Some(503)))
    ensures !IsFatal(RequestError(name, false, Some(302)))
    ensures !IsFatal(RequestError(name, false, None))
    ensures forall code: Option<int> :: IsFatal(RequestError(name, true, code))
  {
  }

  // ---------------------------------------------------------------------
  // Parsing balancer messages

  /** The marker the balancer writes before its list of underlying exceptions. */
  const ExceptionsMarker: string := "Exceptions: "

  /**
   * `parse`: for a `NoResult`, the second field of its message split at
   * `"Exceptions: "` (nil when there is none); for any other exception, its class name.
   */
  function Parse(e: Exception): Option<string>
  {
    match e
    case NoResult(message) =>
      var fields := Split(message, ExceptionsMarker);
      if |fields| > 1 then Some(fields[1]) else None
    case OtherException(className) => Some(className)
  }

  /** Some field is not empty, so `split` keeps the fields up to it. */
  predicate HasNonEmptyField(fields: seq<string>)
  {
    exists j :: 0 <= j < |fields| && fields[j] != []
  }

  /**
   * The fields of a message holding the marker at `i`: the text after the
   * marker's first occurrence comes second, and it survives `split` exactly
   * when some field after the marker is not empty.
   */
  lemma ParseAfterMarker(m: string, i: nat)
    requires IndexOf(m, ExceptionsMarker) == Some(i)
    ensures var rest := m[i + |ExceptionsMarker|..];
      var d := Split(m, ExceptionsMarker);
      && (|d| > 1 <==> HasNonEmptyField(Fields(rest, ExceptionsMarker)))
      && (|d| > 1 ==> d[1] == Before(rest, ExceptionsMarker))
      && (rest == [] ==> |d| <= 1)
  {
    var rest := m[i + |ExceptionsMarker|..];
    var f := Fields(m, ExceptionsMarker);
    var g := Fields(rest, ExceptionsMarker);
    var d := DropTrailingEmpty(f);
    FieldsTail(m, ExceptionsMarker, i);
    assert f == [m[..i]] + g;
    assert f[1] == g[0];
    if |d| > 1 {
      var k := |d| - 1;
      assert d[k] == f[k] == g[k - 1] && g[k - 1] != [];
    }
    if HasNonEmptyField(g) {
      var j :| 0 <= j < |g| && g[j] != [];
      assert f[j + 1] == g[j];
    }
    if rest == [] {
      FieldsNone(rest, ExceptionsMarker);
      assert f == [m[..i], []];
    }
  }

  /**
   * For a `NoResult` holding the marker, `Parse` returns the text between the
   * first marker and the next one (or the end) when some field after the
   * first marker is not empty, and nil otherwise; nil when the marker is
   * absent. Any other exception is reported by its class name.
   */
  lemma ParseSpec(e: Exception)
    ensures e.OtherException? ==> Parse(e) == Some(e.className)
    ensures e.NoResult? && IndexOf(e.message, ExceptionsMarker).None? ==> Parse(e) == None
    ensures e.NoResult? && IndexOf(e.message, ExceptionsMarker).Some? ==>
      var rest := e.message[IndexOf(e.message, ExceptionsMarker).value + |ExceptionsMarker|..];
      && Parse(e) == (if HasNonEmptyField(Fields(rest, ExceptionsMarker)) then Some(Before(rest, ExceptionsMarker)) else None)
      && (Before(rest, ExceptionsMarker) != [] ==> Parse(e) == Some(Before(rest, ExceptionsMarker)))
      && (rest == [] ==> Parse(e) == None)
  {
    if e.NoResult? {
      match IndexOf(e.message, ExceptionsMarker)
      case None =>
        FieldsNone(e.message, ExceptionsMarker);
      case Some(i) =>
        ParseAfterMarker(e.message, i);
        var rest := e.message[i + |ExceptionsMarker|..];
        var g := Fields(rest, ExceptionsMarker);
        if Before(rest, ExceptionsMarker) != [] {
          assert g[0] != [];
        }
    }
  }

  /** A marker found after two characters that cannot start it begins at position 2. */
  lemma MarkerAfterTwoChars(p: string, t: string)
    requires |p| == 2 && p[0] != ExceptionsMarker[0] && p[1] != ExceptionsMarker[0]
    ensures IndexOf(p + ExceptionsMarker + t, ExceptionsMarker) == Some(2)
  {
    var m := p + ExceptionsMarker + t;
    assert !OccursAt(m, ExceptionsMarker, 0) by { assert m[0] != ExceptionsMarker[0]; }
    assert !OccursAt(m, ExceptionsMarker, 1) by { assert m[1] != ExceptionsMarker[0]; }
    assert OccursAt(m, ExceptionsMarker, 2) by { assert m[2..2 + |ExceptionsMarker|] == ExceptionsMarker; }
  }

  /** A repeated marker followed by text yields the empty field between the markers. */
  lemma RepeatedMarkerThenText()
    ensures Parse(NoResult("x " + ExceptionsMarker + ExceptionsMarker + "y")) == Some("")
  {
    var m := "x " + ExceptionsMarker + ExceptionsMarker + "y";
    assert m == "x " + ExceptionsMarker + (ExceptionsMarker + "y");
    MarkerAfterTwoChars("x ", ExceptionsMarker + "y");
    var rest := m[2 + |ExceptionsMarker|..];
    assert rest == ExceptionsMarker + "y";
    assert OccursAt(rest, ExceptionsMarker, 0) by { assert rest[..|ExceptionsMarker|] == ExceptionsMarker; }
    assert Fields(rest, ExceptionsMarker)[1] == Fields("y", ExceptionsMarker)[0];
    ParseSpec(NoResult(m));
  }

  /** The marker alone splits into two empty fields. */
  lemma MarkerAloneFields()
    ensures Fields(ExceptionsMarker, ExceptionsMarker) == [[], []]
    ensures !HasNonEmptyField(Fields(ExceptionsMarker, ExceptionsMarker))
  {
    var g := Fields(ExceptionsMarker, ExceptionsMarker);
    assert IndexOf(ExceptionsMarker, ExceptionsMarker) == Some(0);
    FieldsTail(ExceptionsMarker, ExceptionsMarker, 0);
    assert ExceptionsMarker[|ExceptionsMarker|..] == [];
    FieldsNone([], ExceptionsMarker);
    assert g == [[], []];
    forall j | 0 <= j < |g| ensures g[j] == [] { }
  }

  /** A repeated marker ending the message leaves only empty fields, so nil. */
  lemma RepeatedMarkerAtEnd()
    ensures Parse(NoResult("x " + ExceptionsMarker + ExceptionsMarker)) == None
  {
    var m := "x " + ExceptionsMarker + ExceptionsMarker;
    MarkerAfterTwoChars("x ", ExceptionsMarker);
    assert m[2 + |ExceptionsMarker|..] == ExceptionsMarker;
    MarkerAloneFields();
    ParseSpec(NoResult(m));
  }

  // ---------------------------------------------------------------------
  // Sanitising a resource name

  /** `sanitize_resource`: `resource.split('?').first`. */
  function SanitizeResource(resource: string): Option<string>
  {
    var fields := Split(resource, "?");
    if |fields| == 0 then None else Some(fields[0])
  }

  /**
   * The sanitised resource is the text before the first `?`; a name without
   * `?` comes back whole; the empty name and names made only of `?` give nil.
   */
  lemma SanitizeResourceSpec(resource: string)
    ensures SanitizeResource(resource).None? <==> forall i :: 0 <= i < |resource| ==> resource[i] == '?'
    ensures SanitizeResource(resource).Some? ==>
      var p := SanitizeResource(resource).value;
      && p <= resource
      && (forall i :: 0 <= i < |p| ==> p[i] != '?')
      && (|p| == |resource| || resource[|p|] == '?')
    ensures resource != [] && (forall i :: 0 <= i < |resource| ==> resource[i] != '?') ==>
      SanitizeResource(resource) == Some(resource)
  {
    var f := Fields(resource, "?");
    var d := DropTrailingEmpty(f);
    FieldsAllEmptyChar(resource, '?');
    assert "?" == ['?'];
    if |d| > 0 {
      var p := d[0];
      assert p == f[0] == Before(resource, "?");
      forall i | 0 <= i < |p| ensures p[i] != '?' {
        OccursAtChar(resource, '?', i);
      }
      OccursAtChar(resource, '?', |p|);
      if resource != [] && (forall i :: 0 <= i < |resource| ==> resource[i] != '?') {
        assert |p| == |resource|;
      }
    } else {
      assert forall j :: 0 <= j < |f| ==> f[j] == [];
      if resource != [] {
        assert resource[0] == '?';
      }
    }
  }

  // ---------------------------------------------------------------------
  // Scaling byte counts for display

  const KiB: int := 1024
  const MiB: int := 1024 * 1024
  const GiB: int := 1024 * 1024 * 1024

  /** The lower bound of the MB tier as the source writes it, `1024^2`: an exclusive or, 1026. */
  const MbTierLow: int := ((1024 as bv16) ^ (2 as bv16)) as int

  /** A scaled value and its unit, the pair `scale` returns. */
  datatype Scaled = Scaled(value: int, unit: string)

  /** `scale`: the first matching range wins; Ruby's `/` on integers floors. */
  function Scale(v: int): Scaled
  {
    if 0 <= v <= 1023 then Scaled(v, "B")
    else if 1024 <= v <= MiB - 1 then Scaled(v / KiB, "KB")
    else if MbTierLow <= v <= GiB - 1 then Scaled(v / MiB, "MB")
    else Scaled(v / GiB, "GB")
  }

  /** The number of bytes one unit stands for. */
  function UnitSize(unit: string): int
  {
    if unit == "B" then 1 else if unit == "KB" then KiB else if unit == "MB" then MiB else GiB
  }

  /** `1024^2` is 1026, inside the KB range, so the MB tier really starts at 1024 * 1024. */
  lemma MbTierLowIsXor()
    ensures MbTierLow == 1026
    ensures KiB <= MbTierLow < MiB
  {
  }

  /**
   * Each unit is chosen for exactly its range (everything outside 0 .. 1024^3 - 1,
   * negatives included, is GB); the value is the byte count floor-divided by the
   * unit, and it is below 1024 in the B, KB and MB tiers.
   */
  lemma ScaleSpec(v: int)
    ensures Scale(v).unit == "B" <==> 0 <= v < KiB
    ensures Scale(v).unit == "KB" <==> KiB <= v < MiB
    ensures Scale(v).unit == "MB" <==> MiB <= v < GiB
    ensures Scale(v).unit == "GB" <==> v < 0 || GiB <= v
    ensures Scale(v).unit != "GB" ==> 0 <= Scale(v).value < 1024
    ensures var s := Scale(v);
      s.value * UnitSize(s.unit) <= v < (s.value + 1) * UnitSize(s.unit)
  {
    MbTierLowIsXor();
    var s := Scale(v);
    if s.unit == "GB" {
      assert s.value == v / GiB;
    }
  }

  /** The boundary values of the tiers. */
  lemma ScaleBoundaries()
    ensures Scale(0) == Scaled(0, "B") && Scale(1023) == Scaled(1023, "B")
    ensures Scale(1024) == Scaled(1, "KB") && Scale(MiB - 1) == Scaled(1023, "KB")
    ensures Scale(MiB) == Scaled(1, "MB") && Scale(GiB) == Scaled(1, "GB")
    ensures Scale(-1) == Scaled(-1, "GB")
  {
    MbTierLowIsXor();
  }

  // ---------------------------------------------------------------------
  // The details summary

  /** Ruby's `nil.to_i` is 0. */
  function ToI(x: Option<int>): int
  {
    match x
    case None => 0
    case Some(n) => n
  }

  /** String interpolation of a possibly nil string: nil interpolates as "". */
  function OrEmpty(s: Option<string>): string
  {
    match s
    case None => ""
    case Some(t) => t
  }

  /** `scale(n).join(' ')`. */
  function ScaledText(s: Scaled): string
  {
    IntToString(s.value) + " " + s.unit
  }

  /** The text `details` returns for the given sanitised resource, size and speed. */
  function DetailsText(resource: Option<string>, size: int, speed: int): string
  {
    "Downloaded '" + OrEmpty(resource) + "' (" + ScaledText(Scale(size)) + ") at "
      + ScaledText(Scale(speed)) + "/s"
  }

  /** The unit names `scale` can return. */
  predicate IsUnit(u: string)
  {
    u == "B" || u == "KB" || u == "MB" || u == "GB"
  }

  /** Text without a space, then a space: the first space is the one added. */
  lemma FirstSpaceAfter(a: string, b: string)
    requires forall j :: 0 <= j < |a| ==> a[j] != ' '
    ensures var t := a + " " + b;
      IndexOf(t, " ") == Some(|a|) && t[..|a|] == a && t[|a| + 1..] == b
  {
    var t := a + " " + b;
    assert OccursAt(t, " ", |a|) by { assert t[|a|..|a| + 1] == " "; }
    var sp := IndexOf(t, " ");
    assert t[sp.value..sp.value + 1] == " ";
    assert t[sp.value] == ' ';
    assert forall j :: 0 <= j < |a| ==> t[j] == a[j];
  }

  /** `Integer#to_s` writes no space. */
  lemma IntToStringNoSpace(i: int)
    ensures forall j :: 0 <= j < |IntToString(i)| ==> IntToString(i)[j] != ' '
  {
    if i < 0 {
      var d := NatToString(-i);
      assert forall j :: 1 <= j < |IntToString(i)| ==> IntToString(i)[j] == d[j - 1];
    }
  }

  /**
   * Reading a scaled quantity back: the text before its first space is an
   * integer `n`, the rest is a unit, and `n` units bracket the original value
   * to within one unit; below a gibibyte `n` is under 1024.
   */
  lemma ScaledTextReadsBack(v: int)
    ensures var t := ScaledText(Scale(v));
      && IndexOf(t, " ").Some?
      && var n := ReadInt(t[..IndexOf(t, " ").value]);
         var u := t[IndexOf(t, " ").value + 1..];
         && IsUnit(u)
         && n * UnitSize(u) <= v < (n + 1) * UnitSize(u)
         && (0 <= v < GiB ==> 0 <= n < 1024)
  {
    var sc := Scale(v);
    ScaleSpec(v);
    IntToStringNoSpace(sc.value);
    FirstSpaceAfter(IntToString(sc.value), sc.unit);
    IntToStringRoundTrip(sc.value);
  }

  /** A 2048-byte file moved at 1536 bytes a second reads "(2 KB) at 1 KB/s". */
  lemma DetailsKilobytes()
    ensures DetailsText(Some("f"), 2048, 1536) == "Downloaded 'f' (2 KB) at 1 KB/s"
  {
    assert Scale(2048) == Scaled(2, "KB");
    assert Scale(1536) == Scaled(1, "KB");
    assert IntToString(2) == "2" && IntToString(1) == "1";
  }

  /** Zero bytes read "0 B". */
  lemma ZeroScaledText()
    ensures ScaledText(Scale(0)) == "0 B"
  {
    assert Scale(0) == Scaled(0, "B");
    assert IntToString(0) == "0";
  }

  /** With size and speed reset to 0 the summary reads "(0 B) at 0 B/s". */
  lemma DetailsAfterReset(resource: Option<string>)
    ensures DetailsText(resource, 0, 0) == "Downloaded '" + OrEmpty(resource) + "' (0 B) at 0 B/s"
  {
    ZeroScaledText();
  }

  // ---------------------------------------------------------------------
  // Resolving hostnames

  /** Why constructing a downloader fails. */
  datatype InitError = ArgumentError(message: string) | ResolutionError(hostname: string)

  const EmptyHostnamesMessage: string := "At least one hostname must be provided"

  /** Every hostname has an answer from DNS. */
  predicate AllResolvable(hostnames: seq<string>, dns: map<string, seq<string>>)
  {
    forall i :: 0 <= i < |hostnames| ==> hostnames[i] in dns
  }

  /**
   * The IP-to-hostname table `resolve` builds: hostnames are taken in order
   * and each of their addresses is (re)assigned to them, so a later hostname
   * overrides an earlier one for a shared address.
   */
  function Table(hostnames: seq<string>, dns: map<string, seq<string>>): map<string, string>
    requires AllResolvable(hostnames, dns)
  {
    if hostnames == [] then map[]
    else
      var last := hostnames[|hostnames| - 1];
      Table(hostnames[..|hostnames| - 1], dns) + map ip | ip in dns[last] :: last
  }

  /** `hostnames[j]` is the last hostname, in input order, that resolved to `ip`. */
  predicate LastResolvedBy(hostnames: seq<string>, dns: map<string, seq<string>>, ip: string, j: int)
    requires AllResolvable(hostnames, dns)
  {
    && 0 <= j < |hostnames|
    && ip in dns[hostnames[j]]
    && forall k :: j < k < |hostnames| ==> ip !in dns[hostnames[k]]
  }

  /**
   * Every address of every hostname is a key of the table, and each key maps
   * to the last hostname that resolved to it, hence to one of the inputs.
   */
  lemma {:induction false} TableSpec(hostnames: seq<string>, dns: map<string, seq<string>>, ip: string)
    requires AllResolvable(hostnames, dns)
    ensures ip in Table(hostnames, dns) <==> exists j :: 0 <= j < |hostnames| && ip in dns[hostnames[j]]
    ensures ip in Table(hostnames, dns) ==>
      exists j :: LastResolvedBy(hostnames, dns, ip, j) && Table(hostnames, dns)[ip] == hostnames[j]
    decreases |hostnames|
  {
    if hostnames != [] {
      var n := |hostnames| - 1;
      var init := hostnames[..n];
      assert AllResolvable(init, dns);
      TableSpec(init, dns, ip);
      if ip in dns[hostnames[n]] {
        assert LastResolvedBy(hostnames, dns, ip, n);
      } else if ip in Table(init, dns) {
        var j :| LastResolvedBy(init, dns, ip, j) && Table(init, dns)[ip] == init[j];
        assert LastResolvedBy(hostnames, dns, ip, j);
      } else {
        forall j | 0 <= j < |hostnames| ensures ip !in dns[hostnames[j]] {
          if j < n { assert hostnames[j] == init[j]; }
        }
      }
    }
  }

  /** Every value of the table is one of the input hostnames. */
  lemma TableValues(hostnames: seq<string>, dns: map<string, seq<string>>)
    requires AllResolvable(hostnames, dns)
    ensures forall ip :: ip in Table(hostnames, dns) ==> Table(hostnames, dns)[ip] in hostnames
  {
    forall ip | ip in Table(hostnames, dns) ensures Table(hostnames, dns)[ip] in hostnames {
      TableSpec(hostnames, dns, ip);
    }
  }

  /**
   * A hostname whose addresses all belong to a later hostname too does not
   * appear among the table's values, although it resolved.
   */
  lemma SharedAddressHidesHostname()
    ensures var dns := map["a" := ["10.0.0.1"], "b" := ["10.0.0.1"]];
      AllResolvable(["a", "b"], dns) && Table(["a", "b"], dns) == map["10.0.0.1" := "b"]
  {
    var dns := map["a" := ["10.0.0.1"], "b" := ["10.0.0.1"]];
    var hostnames := ["a", "b"];
    assert hostnames[..1] == ["a"] && ["a"][..0] == [];
    var first := Table(["a"], dns);
    assert first.Keys == {"10.0.0.1"};
    var second := map ip | ip in dns["b"] :: "b";
    assert second == map["10.0.0.1" := "b"];
    assert Table(hostnames, dns) == first + second;
  }

  /** The last step of `Table`: the last hostname's addresses are (re)assigned to it. */
  lemma TableSnoc(hostnames: seq<string>, dns: map<string, seq<string>>, i: nat)
    requires i < |hostnames| && AllResolvable(hostnames[..i + 1], dns)
    ensures AllResolvable(hostnames[..i], dns)
    ensures Table(hostnames[..i + 1], dns)
      == Table(hostnames[..i], dns) + map ip | ip in dns[hostnames[i]] :: hostnames[i]
  {
    assert hostnames[..i + 1][..i] == hostnames[..i];
    assert forall k :: 0 <= k < i ==> hostnames[..i][k] == hostnames[..i + 1][k];
  }

  /** A permutation of the addresses assigns the same addresses. */
  lemma ShuffleSameMap(shuffled: seq<string>, infos: seq<string>, hostname: string)
    requires multiset(shuffled) == multiset(infos)
    ensures (map ip | ip in shuffled :: hostname) == (map ip | ip in infos :: hostname)
  {
    forall ip ensures ip in shuffled <==> ip in infos {
      assert ip in shuffled <==> ip in multiset(shuffled);
      assert ip in infos <==> ip in multiset(infos);
    }
  }

  /** `infos.shuffle.each { |info| ips[info[3]] = hostname }`: each address now maps to `hostname`. */
  method AssignAll(ips: map<string, string>, addresses: seq<string>, hostname: string)
    returns (r: map<string, string>)
    ensures r == ips + map ip | ip in addresses :: hostname
  {
    r := ips;
    var j := 0;
    while j < |addresses|
      invariant 0 <= j <= |addresses|
      invariant r == ips + map ip | ip in addresses[..j] :: hostname
    {
      assert addresses[..j + 1] == addresses[..j] + [addresses[j]];
      r := r[addresses[j] := hostname];
      j := j + 1;
    }
    assert addresses[..j] == addresses;
  }

  /**
   * `resolve`: looks the hostnames up in order, stopping at (and re-raising)
   * the first failure; otherwise assigns every address of each hostname, in
   * shuffled order, to that hostname. `queried` is the list of lookups made.
   */
  method Resolve(hostnames: seq<string>, dns: map<string, seq<string>>)
    returns (r: Result<map<string, string>, InitError>, ghost queried: seq<string>)
    ensures r.Success? <==> AllResolvable(hostnames, dns)
    ensures r.Success? ==> r.value == Table(hostnames, dns) && queried == hostnames
    ensures r.Failure? ==>
      && 0 < |queried| <= |hostnames|
      && queried == hostnames[..|queried|]
      && r.error == ResolutionError(queried[|queried| - 1])
      && queried[|queried| - 1] !in dns
      && AllResolvable(queried[..|queried| - 1], dns)
  {
    var ips: map<string, string> := map[];
    queried := [];
    var i := 0;
    while i < |hostnames|
      invariant 0 <= i <= |hostnames|
      invariant AllResolvable(hostnames[..i], dns)
      invariant queried == hostnames[..i]
      invariant ips == Table(hostnames[..i], dns)
    {
      var hostname := hostnames[i];
      queried := queried + [hostname];
      assert queried == hostnames[..i + 1];
      if hostname !in dns {
        assert queried[..i] == hostnames[..i];
        r := Failure(ResolutionError(hostname));
        return;
      }
      var infos := dns[hostname];
      var shuffled :| multiset(shuffled) == multiset(infos);
      ips := AssignAll(ips, shuffled, hostname);
      ShuffleSameMap(shuffled, infos, hostname);
      assert AllResolvable(hostnames[..i + 1], dns);
      TableSnoc(hostnames, dns, i);
      i := i + 1;
    }
    assert hostnames[..i] == hostnames;
    r := Success(ips);
  }

  // ---------------------------------------------------------------------
  // The downloader object

  /** The request balancer built once per downloader over the resolved addresses. */
  datatype Balancer = Balancer(endpoints: set<string>)

  /** What the subclass's `_download` did: returned a file, or raised. */
  datatype TransferOutcome =
    | Transferred(file: string, bytes: int, measuredSpeed: int)
    | TransferRaised(error: Exception)

  class Downloader {
    /** IP address => hostname, fixed at construction. */
    const ips: map<string, string>
    /** Size in bytes of the last download (nil before any). */
    var size: Option<int>
    /** Speed in bytes per second of the last download (nil before any). */
    var speed: Option<int>
    /** The last resource downloaded, sanitised. */
    var sanitizedResource: Option<string>
    /** The memoised balancer. */
    var balancer: Option<Balancer>

    ghost predicate Valid()
      reads this
    {
      balancer.Some? ==> balancer.value.endpoints == ips.Keys
    }

    constructor FromTable(table: map<string, string>)
      ensures Valid() && ips == table
      ensures size == None && speed == None && sanitizedResource == None && balancer == None
    {
      ips := table;
      size, speed, sanitizedResource, balancer := None, None, None, None;
    }

    /**
     * `initialize`: an empty hostname list raises `ArgumentError` before any
     * lookup; otherwise the table is built by `Resolve`, whose failure aborts
     * construction.
     */
    static method New(hostnames: seq<string>, dns: map<string, seq<string>>)
      returns (r: Result<Downloader, InitError>, ghost queried: seq<string>)
      ensures hostnames == [] ==> r == Failure(ArgumentError(EmptyHostnamesMessage)) && queried == []
      ensures hostnames != [] ==> (r.Success? <==> AllResolvable(hostnames, dns))
      ensures r.Success? ==>
        && fresh(r.value) && r.value.Valid()
        && r.value.ips == Table(hostnames, dns)
        && r.value.size == None && r.value.speed == None
        && r.value.sanitizedResource == None && r.value.balancer == None
      ensures hostnames != [] && r.Failure? ==>
        && 0 < |queried| <= |hostnames|
        && queried == hostnames[..|queried|]
        && r.error == ResolutionError(queried[|queried| - 1])
        && queried[|queried| - 1] !in dns
        && AllResolvable(queried[..|queried| - 1], dns)
    {
      if hostnames == [] {
        r, queried := Failure(ArgumentError(EmptyHostnamesMessage)), [];
        return;
      }
      var table;
      table, queried := Resolve(hostnames, dns);
      if table.Failure? {
        r := Failure(table.error);
      } else {
        var d := new Downloader.FromTable(table.value);
        r := Success(d);
      }
    }

    /**
     * `download`: resets size and speed to 0 and records the sanitised
     * resource before the transfer, so a transfer that raises leaves 0, 0 and
     * the new name; a successful one leaves its size and measured speed.
     */
    method Download(resource: string, outcome: TransferOutcome) returns (r: Result<string, Exception>)
      requires Valid()
      modifies this`size, this`speed, this`sanitizedResource
      ensures Valid()
      ensures sanitizedResource == SanitizeResource(resource)
      ensures outcome.TransferRaised? ==>
        && r == Failure(outcome.error) && size == Some(0) && speed == Some(0)
        && Details() == "Downloaded '" + OrEmpty(SanitizeResource(resource)) + "' (0 B) at 0 B/s"
      ensures outcome.Transferred? ==>
        r == Success(outcome.file) && size == Some(outcome.bytes) && speed == Some(outcome.measuredSpeed)
    {
      size := Some(0);
      speed := Some(0);
      sanitizedResource := SanitizeResource(resource);
      match outcome
      case TransferRaised(e) =>
        DetailsAfterReset(sanitizedResource);
        r := Failure(e);
      case Transferred(file, bytes, measured) =>
        size := Some(bytes);
        speed := Some(measured);
        r := Success(file);
    }

    /**
     * `details`: the summary of the last download. It names the sanitised
     * resource, and before any download (size and speed nil) reads 0 B at 0 B/s.
     */
    function Details(): (r: string)
      reads this
      ensures var head := "Downloaded '" + OrEmpty(sanitizedResource) + "' (";
        |head| <= |r| && r[..|head|] == head
      ensures size.None? && speed.None? ==>
        r == "Downloaded '" + OrEmpty(sanitizedResource) + "' (0 B) at 0 B/s"
    {
      DetailsAfterReset(sanitizedResource);
      DetailsText(sanitizedResource, ToI(size), ToI(speed))
    }

    /** `balancer`: built over the table's addresses on first use, then reused. */
    method GetBalancer() returns (b: Balancer)
      requires Valid()
      modifies this`balancer
      ensures Valid() && balancer == Some(b)
      ensures b.endpoints == ips.Keys
      ensures old(balancer).Some? ==> b == old(balancer).value
    {
      if balancer.None? {
        balancer := Some(Balancer(ips.Keys));
      }
      b := balancer.value;
    }
  }
}
