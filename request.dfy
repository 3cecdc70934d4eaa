/** The request value that travels along the processor chain: one immutable name. */
module Requests {

  datatype Option<T> = None | Some(value: T)

  /** A request carries only its name; being a datatype, it cannot be changed once built. */
  datatype Request = Request(name: string)

  const Prefix: string := "Request{name='"
  const Suffix: string := "'}"

  /** Builds a request; the name is stored as given and is what its rendering shows. */
  function NewRequest(name: string): (r: Request)
    ensures r.name == name
    ensures ParseName(ToString(r)) == Some(name)
  {
    var r := Request(name);
    ParseToString(r);
    r
  }

  /** Renders a request the way its toString does. */
  function ToString(r: Request): (s: string)
    ensures |s| == |Prefix| + |r.name| + |Suffix|
  {
    "Request{" + "name='" + r.name + "'" + "}"
  }

  /** Reads a name back out of a rendered request; None when the text is not of that shape. */
  function ParseName(s: string): (name: Option<string>)
    ensures name.Some? ==> Prefix + name.value + Suffix == s
  {
    if |s| >= |Prefix| + |Suffix| && s[..|Prefix|] == Prefix && s[|s| - |Suffix|..] == Suffix then
      var n := s[|Prefix|..|s| - |Suffix|];
      assert s == s[..|Prefix|] + n + s[|s| - |Suffix|..];
      Some(n)
    else
      None
  }

  /** The rendering is exactly the fixed prefix, the name, and the fixed suffix. */
  lemma ToStringShape(r: Request)
    ensures ToString(r) == Prefix + r.name + Suffix
    ensures ToString(r)[..|Prefix|] == Prefix
    ensures ToString(r)[|ToString(r)| - |Suffix|..] == Suffix
    ensures ToString(r)[|Prefix|..|ToString(r)| - |Suffix|] == r.name
  {
    var s := ToString(r);
    assert s == Prefix + r.name + Suffix;
    assert s[..|Prefix|] == Prefix;
    assert s[|s| - |Suffix|..] == Suffix;
    assert s[|Prefix|..|s| - |Suffix|] == r.name;
  }

  /** Stripping the prefix and the suffix from the rendering gives back the name. */
  lemma ParseToString(r: Request)
    ensures ParseName(ToString(r)) == Some(r.name)
  {
    ToStringShape(r);
  }

  /** The rendering depends on the name alone, and different names render differently. */
  lemma ToStringInjective(a: Request, b: Request)
    ensures ToString(a) == ToString(b) <==> a.name == b.name
  {
    if ToString(a) == ToString(b) {
      ParseToString(a);
      ParseToString(b);
    }
  }
}
