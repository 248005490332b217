/**
 * The address recorded with an attempt: the first entry of the
 * `X-Forwarded-For` header when that header is non-empty, otherwise the
 * address of the connection.
 */
module ClientAddress {
  import opened Wrappers
  import opened Text

  /** `s.split(',')[0]`: the text of `s` before its first comma (all of `s` if it has none). */
  function BeforeComma(s: string): (r: string)
    ensures |r| <= |s| && r == s[..|r|]
    ensures ',' !in r
    ensures |r| < |s| ==> s[|r|] == ','
  {
    if s == [] || s[0] == ',' then [] else [s[0]] + BeforeComma(s[1..])
  }

  /**
   * The client's address. `forwardedFor` is the header's value (`None` when
   * the request has no such header); `remote` is the connection's address.
   */
  function Address(forwardedFor: Option<string>, remote: string): string {
    if forwardedFor.Some? && forwardedFor.value != [] then Trim(BeforeComma(forwardedFor.value))
    else remote
  }

  /**
   * A reference reading of the header: for a header `first,rest` whose first
   * entry holds no comma, the address is that entry, trimmed; a header
   * without a comma is taken whole.
   */
  lemma {:induction false} BeforeCommaSplit(first: string, rest: string)
    requires ',' !in first
    ensures BeforeComma(first + "," + rest) == first
    ensures BeforeComma(first) == first
    decreases |first|
  {
    if first == [] {
      assert (first + "," + rest)[0] == ',';
    } else {
      assert (first + "," + rest)[0] == first[0];
      assert (first + "," + rest)[1..] == first[1..] + "," + rest;
      BeforeCommaSplit(first[1..], rest);
      assert [first[0]] + first[1..] == first;
    }
  }

  /** The forwarded address wins whenever the header is non-empty; it is the first entry, trimmed. */
  lemma AddressFromHeader(first: string, rest: string, remote: string)
    requires ',' !in first
    ensures Address(Some(first + "," + rest), remote) == Trim(first)
    ensures first != [] ==> Address(Some(first), remote) == Trim(first)
  {
    BeforeCommaSplit(first, rest);
  }

  /** Without a usable header the connection's address is used unchanged. */
  lemma AddressWithoutHeader(remote: string)
    ensures Address(None, remote) == remote
    ensures Address(Some(""), remote) == remote
  {
  }

  /** A forwarded address holds no comma and no surrounding whitespace. */
  lemma ForwardedAddressShape(header: string, remote: string)
    requires header != []
    ensures ',' !in Address(Some(header), remote)
    ensures var a := Address(Some(header), remote);
      a != [] ==> !IsSpace(a[0]) && !IsSpace(a[|a| - 1])
  {
    var b := BeforeComma(header);
    TrimKeepsChars(b, ',');
    TrimIsSlice(b);
  }
}
