/**
  The link builders `generate_google_link` (faq_skeleton.py:153-164) and
  `generate_google_map_link` (faq_skeleton.py:176-187): the text, with every
  space replaced by `+`, behind a fixed URL prefix.
 */
module Links {

  const SearchUrl: string := "https://www.google.com/search?q="
  const MapsUrl: string := "https://www.google.com/maps/search/?api=1&query="

  /** `text.replace(" ", "+")`. */
  function PlusForSpaces(text: string): (r: string)
    ensures |r| == |text|
    ensures forall k :: 0 <= k < |text| ==> r[k] == if text[k] == ' ' then '+' else text[k]
  {
    if text == [] then []
    else [if text[0] == ' ' then '+' else text[0]] + PlusForSpaces(text[1..])
  }

  /** `generate_google_link(text)`. */
  function GoogleLink(text: string): (r: string)
    ensures |r| == |SearchUrl| + |text|
    ensures r[..|SearchUrl|] == SearchUrl
    ensures ' ' !in r[|SearchUrl|..]
    ensures forall k :: 0 <= k < |text| ==> r[|SearchUrl| + k] == if text[k] == ' ' then '+' else text[k]
  {
    var r := SearchUrl + PlusForSpaces(text);
    assert r[|SearchUrl|..] == PlusForSpaces(text);
    r
  }

  /** `generate_google_map_link(location)`. */
  function GoogleMapLink(location: string): (r: string)
    ensures |r| == |MapsUrl| + |location|
    ensures r[..|MapsUrl|] == MapsUrl
    ensures ' ' !in r[|MapsUrl|..]
    ensures forall k :: 0 <= k < |location| ==> r[|MapsUrl| + k] == if location[k] == ' ' then '+' else location[k]
  {
    var r := MapsUrl + PlusForSpaces(location);
    assert r[|MapsUrl|..] == PlusForSpaces(location);
    r
  }

  /** On texts without `+`, the replacement loses nothing: the query determines the text. */
  lemma {:induction false} PlusForSpacesInjective(a: string, b: string)
    requires '+' !in a && '+' !in b
    requires PlusForSpaces(a) == PlusForSpaces(b)
    ensures a == b
  {
    assert |a| == |b|;
    forall k | 0 <= k < |a| ensures a[k] == b[k] {
      assert a[k] in a && b[k] in b;
    }
  }

  /** A search link names its text uniquely, as long as the text has no `+`. */
  lemma GoogleLinkInjective(a: string, b: string)
    requires '+' !in a && '+' !in b
    requires GoogleLink(a) == GoogleLink(b)
    ensures a == b
  {
    assert GoogleLink(a)[|SearchUrl|..] == PlusForSpaces(a);
    assert GoogleLink(b)[|SearchUrl|..] == PlusForSpaces(b);
    PlusForSpacesInjective(a, b);
  }

  /** A map link names its location uniquely, as long as the location has no `+`. */
  lemma GoogleMapLinkInjective(a: string, b: string)
    requires '+' !in a && '+' !in b
    requires GoogleMapLink(a) == GoogleMapLink(b)
    ensures a == b
  {
    assert GoogleMapLink(a)[|MapsUrl|..] == PlusForSpaces(a);
    assert GoogleMapLink(b)[|MapsUrl|..] == PlusForSpaces(b);
    PlusForSpacesInjective(a, b);
  }
}
