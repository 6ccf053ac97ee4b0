/**
 * Imagery offset providers and their storage in the preferences as a list
 * of strings: the name, the provider type as its ordinal, the url and,
 * when there are any, the cookies. A `None` element is a Java null.
 */
module OffsetProviders {
  import opened Wrappers
  import opened Text

  /** The provider types; OSMOSNIMKI is the only one. */
  datatype ProviderType = Osmosnimki

  /** ProviderType.values(), in declaration order. */
  const ProviderTypes: seq<ProviderType> := [Osmosnimki]

  function Ordinal(t: ProviderType): (i: nat)
    ensures i < |ProviderTypes| && ProviderTypes[i] == t
  {
    match t
    case Osmosnimki => 0
  }

  /** The list read past its end, outside the handler that catches the rest. */
  datatype CreateError = IndexOutOfBounds

  datatype OffsetProvider = OffsetProvider(providerType: ProviderType, name: Option<string>, url: Option<string>, cookies: Option<string>)
  {
    /**
     * getInfoArray: the name, the ordinal of the type and the url, then the
     * cookies unless they are null or empty.
     */
    method GetInfoArray() returns (res: seq<Option<string>>)
      ensures IsInfoArrayOf(res, this)
    {
      res := [];
      res := res + [name];
      res := res + [Some(IntToString(Ordinal(providerType)))];
      res := res + [url];
      if cookies.Some? && cookies.value != "" {
        res := res + [cookies];
      }
    }
  }

  /** What getInfoArray promises about the list it returns for `p`. */
  predicate IsInfoArrayOf(info: seq<Option<string>>, p: OffsetProvider) {
    && (|info| == 3 || |info| == 4)
    && info[0] == p.name
    && info[1] == Some(IntToString(Ordinal(p.providerType)))
    && info[2] == p.url
    && (|info| == 4 <==> p.cookies.Some? && p.cookies.value != "")
    && (|info| == 4 ==> info[3] == p.cookies)
  }

  /**
   * createOffsetProvider as written: the name from element 0, the url from
   * element 2 and, since every list that gets this far has at least three
   * elements, the cookies from element 2 as well. A type field that is not
   * an int or not an ordinal yields null.
   */
  function CreateOffsetProvider(list: seq<Option<string>>): (r: Result<Option<OffsetProvider>, CreateError>)
    ensures r.Failure? <==> |list| < 3
    ensures r.Success? && r.value.Some? ==>
              r.value.value.name == list[0] && r.value.value.url == list[2] && r.value.value.cookies == list[2]
    ensures r.Success? ==> (r.value.Some? <==> ParseJavaInt(list[1]) == Some(0))
  {
    if |list| < 3 then Failure(IndexOutOfBounds)
    else
      var name := list[0];
      var url := list[2];
      var cookies := if |list| >= 3 then list[2] else None;
      match ParseJavaInt(list[1])
      case Some(i) =>
        if 0 <= i < |ProviderTypes| then
          match ProviderTypes[i]
          case Osmosnimki => Success(Some(OffsetProvider(Osmosnimki, name, url, cookies)))
        else Success(None)
      case None => Success(None)
  }

  /**
   * Storing a provider and creating one from the stored list gives back the
   * type, name and url, but the url also in place of the cookies.
   */
  lemma {:induction false} InfoArrayRoundTripAsWritten(p: OffsetProvider, info: seq<Option<string>>)
    requires IsInfoArrayOf(info, p)
    ensures CreateOffsetProvider(info) == Success(Some(p.(cookies := p.url)))
  {
    ParseJavaIntToString(0);
  }

  /** Cookies different from the url do not survive the round trip as written. */
  lemma CookiesLostAsWritten(p: OffsetProvider, info: seq<Option<string>>)
    requires IsInfoArrayOf(info, p) && p.cookies != p.url
    ensures CreateOffsetProvider(info) != Success(Some(p))
  {
    InfoArrayRoundTripAsWritten(p, info);
  }

  /** createOffsetProvider reading the cookies from element 3, where getInfoArray puts them. */
  function CreateOffsetProviderIntended(list: seq<Option<string>>): (r: Result<Option<OffsetProvider>, CreateError>)
    ensures r.Failure? <==> |list| < 3
  {
    if |list| < 3 then Failure(IndexOutOfBounds)
    else
      var cookies := if |list| >= 4 then list[3] else None;
      match ParseJavaInt(list[1])
      case Some(i) =>
        if 0 <= i < |ProviderTypes| then Success(Some(OffsetProvider(ProviderTypes[i], list[0], list[2], cookies)))
        else Success(None)
      case None => Success(None)
  }

  /** Empty cookies are stored as no cookies at all. */
  function NormalCookies(p: OffsetProvider): OffsetProvider {
    if p.cookies == Some("") then p.(cookies := None) else p
  }

  /** With the cookies read from element 3, every provider survives the round trip up to empty cookies. */
  lemma {:induction false} InfoArrayRoundTripIntended(p: OffsetProvider, info: seq<Option<string>>)
    requires IsInfoArrayOf(info, p)
    ensures CreateOffsetProviderIntended(info) == Success(Some(NormalCookies(p)))
  {
    ParseJavaIntToString(0);
  }
}
