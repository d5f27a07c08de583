/** The host-name helpers of `RequestExtensions`: the host of a request
    split into sub-domains, the registered domain and its top-level label.
    The host is given as the text of `Request.Host.Host`; whether a host is
    an IP address is decided by a predicate passed in. */
module RequestExtensions {
  import opened Common
  import opened Text

  /** `Host()`: the request's host in lower case. */
  function Host(requestHost: string): (r: string)
    ensures |r| == |requestHost|
    ensures forall i :: 0 <= i < |r| ==> !('A' <= r[i] <= 'Z')
    ensures ToLower(r) == r
  {
    ToLower(requestHost)
  }

  /** `IsIPAddress()`: the address test applied to the lower-cased host, so a host that is
      already in lower case is tested as it is written. */
  function IsIPAddress(requestHost: string, isValidIPAddress: string -> bool): (r: bool)
    ensures ToLower(requestHost) == requestHost ==> (r <==> isValidIPAddress(requestHost))
  {
    isValidIPAddress(Host(requestHost))
  }

  /** A string with no upper-case letter equals a lower-case word, ignoring case, only when
      it is that word. */
  lemma EqualsLowerCaseWord(h: string, word: string)
    requires forall i :: 0 <= i < |h| ==> !('A' <= h[i] <= 'Z')
    requires forall i :: 0 <= i < |word| ==> 'a' <= word[i] <= 'z'
    ensures EqualsIgnoreCase(h, word) <==> h == word
  {
    if EqualsIgnoreCase(h, word) {
      forall i | 0 <= i < |h|
        ensures h[i] == word[i]
      {
        assert ToUpperChar(h[i]) == ToUpperChar(word[i]);
      }
    }
  }

  /** `IsLocalHost()`: the lower-cased host is "localhost", ignoring case; since the host
      has no upper-case letter, that is the host being "localhost" exactly, whatever the
      case of the request's own host. */
  function IsLocalHost(requestHost: string): (r: bool)
    ensures r <==> Host(requestHost) == "localhost"
    ensures r <==> EqualsIgnoreCase(requestHost, "localhost")
  {
    var h := Host(requestHost);
    EqualsLowerCaseWord(h, "localhost");
    EqualsIgnoreCase(h, "localhost")
  }

  /** The labels of the lower-cased host between its dots. */
  function Labels(requestHost: string): (labels: seq<string>)
    ensures |labels| >= 1
    ensures forall i :: 0 <= i < |labels| ==> '.' !in labels[i]
  {
    Split(Host(requestHost), '.')
  }

  /** What `SubDomains()` returns: nothing for an IP address; otherwise every
      label but the last two. */
  function SubDomainList(requestHost: string, isValidIPAddress: string -> bool): (r: seq<string>)
    ensures IsIPAddress(requestHost, isValidIPAddress) ==> r == []
    ensures !IsIPAddress(requestHost, isValidIPAddress) ==>
              |r| == (if |Labels(requestHost)| > 2 then |Labels(requestHost)| - 2 else 0)
    ensures forall i :: 0 <= i < |r| ==> r[i] == Labels(requestHost)[i]
  {
    var labels := Labels(requestHost);
    if IsIPAddress(requestHost, isValidIPAddress) then []
    else if |labels| > 2 then labels[..|labels| - 2]
    else []
  }

  /** `SubDomains()`: the labels before the domain, collected by an indexed loop. */
  method SubDomains(requestHost: string, isValidIPAddress: string -> bool) returns (subDomains: seq<string>)
    ensures subDomains == SubDomainList(requestHost, isValidIPAddress)
  {
    var labels := Split(Host(requestHost), '.');
    subDomains := [];
    if IsIPAddress(requestHost, isValidIPAddress) {
      return;
    }
    if |labels| > 2 {
      var i := 0;
      while i <= |labels| - 3
        invariant 0 <= i <= |labels| - 2
        invariant subDomains == labels[..i]
      {
        subDomains := subDomains + [labels[i]];
        i := i + 1;
      }
    }
  }

  /** `SubDomain()`: the sub-domain nearest the domain, or "" when there is none. */
  function SubDomain(requestHost: string, isValidIPAddress: string -> bool): (r: string)
    ensures !IsIPAddress(requestHost, isValidIPAddress) && |Labels(requestHost)| > 2 ==>
              r == Labels(requestHost)[|Labels(requestHost)| - 3]
    ensures IsIPAddress(requestHost, isValidIPAddress) || |Labels(requestHost)| <= 2 ==> r == ""
    ensures '.' !in r
  {
    var subDomains := SubDomainList(requestHost, isValidIPAddress);
    if |subDomains| > 0 then subDomains[|subDomains| - 1] else ""
  }

  /** `Domain()`: "" for an IP address; "localhost" for the local host; otherwise
      the last two labels of the host as written, joined by a dot, when there
      are at least two. */
  function Domain(requestHost: string, isValidIPAddress: string -> bool): (r: string)
    ensures IsIPAddress(requestHost, isValidIPAddress) ==> r == ""
    ensures !IsIPAddress(requestHost, isValidIPAddress) && IsLocalHost(requestHost) ==> r == "localhost"
    ensures !IsIPAddress(requestHost, isValidIPAddress) && !IsLocalHost(requestHost) ==>
              var labels := Split(requestHost, '.');
              r == (if |labels| > 1 then labels[|labels| - 2] + "." + labels[|labels| - 1] else "")
  {
    var labels := Split(requestHost, '.');
    if IsIPAddress(requestHost, isValidIPAddress) then ""
    else if IsLocalHost(requestHost) then
      ToLower(Host(requestHost))
    else if |labels| > 1 then labels[|labels| - 2] + "." + labels[|labels| - 1]
    else ""
  }

  /** Joining two non-empty lists of pieces puts one separator between them. */
  lemma {:induction false} JoinAppend(a: seq<string>, b: seq<string>, sep: string)
    requires |a| > 0 && |b| > 0
    ensures Join(a + b, sep) == Join(a, sep) + sep + Join(b, sep)
    decreases |a|
  {
    if |a| == 1 {
      assert (a + b)[1..] == b;
    } else {
      assert (a + b)[1..] == a[1..] + b;
      JoinAppend(a[1..], b, sep);
    }
  }

  /** For a lower-case host name with a domain and a top-level label, the
      sub-domains, joined by dots, followed by the domain give the host back. */
  lemma HostRecomposes(requestHost: string, isValidIPAddress: string -> bool)
    requires ToLower(requestHost) == requestHost
    requires !IsIPAddress(requestHost, isValidIPAddress) && !IsLocalHost(requestHost)
    requires |Labels(requestHost)| > 2
    ensures Join(SubDomainList(requestHost, isValidIPAddress), ".") + "." + Domain(requestHost, isValidIPAddress)
            == requestHost
  {
    var labels := Labels(requestHost);
    var k := |labels|;
    var front := labels[..k - 2];
    var back := [labels[k - 2], labels[k - 1]];
    assert labels == front + back;
    assert SubDomainList(requestHost, isValidIPAddress) == front;
    JoinAppend(front, back, ".");
    assert Join(back, ".") == labels[k - 2] + "." + labels[k - 1];
    JoinSplit(requestHost, '.');
  }

  /** A lower-case host name of exactly two labels has no sub-domain and is its own domain. */
  lemma TwoLabelHostIsDomain(requestHost: string, isValidIPAddress: string -> bool)
    requires ToLower(requestHost) == requestHost
    requires !IsIPAddress(requestHost, isValidIPAddress) && !IsLocalHost(requestHost)
    requires |Labels(requestHost)| == 2
    ensures SubDomainList(requestHost, isValidIPAddress) == []
    ensures SubDomain(requestHost, isValidIPAddress) == ""
    ensures Domain(requestHost, isValidIPAddress) == requestHost
  {
    var labels := Labels(requestHost);
    assert labels[1..] == [labels[1]];
    JoinSplit(requestHost, '.');
  }
}
