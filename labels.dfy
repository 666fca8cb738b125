/** Normalisation of the detector's raw entity labels to the six labels the
    service exposes. */
module Labels {
  import opened Spans

  const Person: string := "PERSON"
  const Organization: string := "ORGANIZATION"
  const Location: string := "LOCATION"
  const Email: string := "EMAIL"
  const Phone: string := "PHONE"
  const Url: string := "URL"

  /** The labels masked when the caller names none, in the source's order. */
  const DefaultTargets: seq<string> := [Person, Location, Organization, Email, Phone, Url]

  /** Upper-casing of one character (ASCII letters only). */
  function UpperChar(c: char): (r: char)
    ensures 'a' <= c <= 'z' ==> r as int == c as int - 32
    ensures !('a' <= c <= 'z') ==> r == c
  {
    if 'a' <= c <= 'z' then (c as int - 32) as char else c
  }

  function Upper(s: string): (r: string)
    ensures |r| == |s|
    ensures forall k :: 0 <= k < |s| ==> r[k] == UpperChar(s[k])
  {
    if |s| == 0 then [] else [UpperChar(s[0])] + Upper(s[1..])
  }

  /** Upper-casing twice is upper-casing once. */
  lemma {:induction false} UpperIdempotent(s: string)
    ensures Upper(Upper(s)) == Upper(s)
  {
    if |s| > 0 {
      UpperIdempotent(s[1..]);
      assert Upper(s)[1..] == Upper(s[1..]);
    }
  }

  /** A string without lower-case letters is its own upper-cased form. */
  lemma {:induction false} UpperFixesUpperCase(s: string)
    requires forall k :: 0 <= k < |s| ==> !('a' <= s[k] <= 'z')
    ensures Upper(s) == s
  {
    if |s| > 0 {
      UpperFixesUpperCase(s[1..]);
    }
  }

  /** The alias table: the upper-cased raw label to the exposed label. The
      result is exactly a look-up of the upper-cased label in Aliases; labels
      outside the table give None. */
  function MapLabel(entLabel: string): (r: Option<string>)
    ensures r == if Upper(entLabel) in Aliases then Some(Aliases[Upper(entLabel)]) else None
  {
    var lbl := Upper(entLabel);
    if lbl in {"PERSON", "PER"} then Some(Person)
    else if lbl in {"ORG", "ORGANIZATION"} then Some(Organization)
    else if lbl in {"GPE", "LOC", "LOCATION"} then Some(Location)
    else if lbl in {"EMAIL", "E-MAIL"} then Some(Email)
    else if lbl in {"PHONE", "TEL", "TELEPHONE"} then Some(Phone)
    else if lbl in {"URL", "URI", "WEB"} then Some(Url)
    else None
  }

  /** The same table written as a map, as a reference for MapLabel. */
  const Aliases: map<string, string> := map[
    "PERSON" := Person, "PER" := Person,
    "ORG" := Organization, "ORGANIZATION" := Organization,
    "GPE" := Location, "LOC" := Location, "LOCATION" := Location,
    "EMAIL" := Email, "E-MAIL" := Email,
    "PHONE" := Phone, "TEL" := Phone, "TELEPHONE" := Phone,
    "URL" := Url, "URI" := Url, "WEB" := Url
  ]

  /** Case does not matter: a label and its upper-cased form map alike. */
  lemma {:induction false} MapLabelCaseInsensitive(entLabel: string)
    ensures MapLabel(Upper(entLabel)) == MapLabel(entLabel)
  {
    UpperIdempotent(entLabel);
  }

  /** Every label MapLabel produces is one of the six defaults. */
  lemma {:induction false} MapLabelRange(entLabel: string)
    ensures MapLabel(entLabel).Some? ==> MapLabel(entLabel).value in DefaultTargets
  {
  }
}
