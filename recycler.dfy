/** The record kept for one business: five free-text fields, a
    semicolon-joined text form and an ordering by business name that
    ignores letter case. */
module Recyclers {
  import opened Strings

  /** The field delimiter of the text form. */
  const Separator: char := ';'

  /** One business contact. The five-argument constructor stores its
      arguments in the fields of the same names, and the field selectors
      are the getters. */
  datatype Recycler = Recycler(
    businessName: string,
    address: string,
    phone: string,
    website: string,
    recycles: string)

  /** The five fields in their fixed order. */
  function Fields(r: Recycler): (fs: seq<string>)
    ensures |fs| == 5
  {
    [r.businessName, r.address, r.phone, r.website, r.recycles]
  }

  /** Recycler.toString: the five fields with a semicolon between each pair. */
  function ToString(r: Recycler): (s: string)
    ensures s == Join(Fields(r), Separator)
  {
    var fs := Fields(r);
    assert Join(fs[4..], Separator) == r.recycles;
    assert Join(fs[3..], Separator) == r.website + ";" + r.recycles by { assert fs[3..][1..] == fs[4..]; }
    assert Join(fs[2..], Separator) == r.phone + ";" + r.website + ";" + r.recycles by { assert fs[2..][1..] == fs[3..]; }
    assert Join(fs[1..], Separator) == r.address + ";" + r.phone + ";" + r.website + ";" + r.recycles by { assert fs[1..][1..] == fs[2..]; }
    r.businessName + ";" + r.address + ";" + r.phone + ";" + r.website + ";" + r.recycles
  }

  /** The setters: each replaces one field and keeps the other four. */
  function SetBusinessName(r: Recycler, v: string): (r': Recycler)
    ensures r'.businessName == v
    ensures Fields(r')[1..] == Fields(r)[1..]
  {
    r.(businessName := v)
  }

  function SetAddress(r: Recycler, v: string): (r': Recycler)
    ensures r'.address == v
    ensures Fields(r')[..1] == Fields(r)[..1] && Fields(r')[2..] == Fields(r)[2..]
  {
    r.(address := v)
  }

  function SetPhone(r: Recycler, v: string): (r': Recycler)
    ensures r'.phone == v
    ensures Fields(r')[..2] == Fields(r)[..2] && Fields(r')[3..] == Fields(r)[3..]
  {
    r.(phone := v)
  }

  function SetWebsite(r: Recycler, v: string): (r': Recycler)
    ensures r'.website == v
    ensures Fields(r')[..3] == Fields(r)[..3] && Fields(r')[4..] == Fields(r)[4..]
  {
    r.(website := v)
  }

  function SetRecycles(r: Recycler, v: string): (r': Recycler)
    ensures r'.recycles == v
    ensures Fields(r')[..4] == Fields(r)[..4]
  {
    r.(recycles := v)
  }

  /** The sort key: the business name folded to lower case. */
  function Key(r: Recycler): string
  {
    ToLowerCase(r.businessName)
  }

  /** compareTo with a String argument: the record's name against the string. */
  function CompareToName(r: Recycler, name: string): (c: int)
    ensures c == 0 <==> Key(r) == ToLowerCase(name)
  {
    CompareZeroIffSameFold(r.businessName, name);
    CompareIgnoreCase(r.businessName, name)
  }

  /** compareTo with a Recycler argument: the two names, ignoring case. */
  function CompareTo(r: Recycler, other: Recycler): (c: int)
    ensures c == 0 <==> Key(r) == Key(other)
  {
    CompareZeroIffSameFold(r.businessName, other.businessName);
    CompareIgnoreCase(r.businessName, other.businessName)
  }

  /** Comparing two records depends on nothing but their case-folded names. */
  lemma CompareToOnlyNames(a: Recycler, b: Recycler, a': Recycler, b': Recycler)
    requires Key(a) == Key(a') && Key(b) == Key(b')
    ensures CompareTo(a, b) == CompareTo(a', b')
  {
    CompareIgnoresCase(a.businessName, a'.businessName, b.businessName);
    CompareAntisymmetric(a'.businessName, b.businessName);
    CompareIgnoresCase(b.businessName, b'.businessName, a'.businessName);
    CompareAntisymmetric(b'.businessName, a'.businessName);
  }

  /** Two records compare as equal exactly when their keys are equal; a
      record and a name compare as equal exactly when the folded name is
      the key. */
  lemma CompareToZeroIffSameKey(a: Recycler, b: Recycler, name: string)
    ensures CompareTo(a, b) == 0 <==> Key(a) == Key(b)
    ensures CompareToName(a, name) == 0 <==> Key(a) == ToLowerCase(name)
  {
    CompareZeroIffSameFold(a.businessName, b.businessName);
    CompareZeroIffSameFold(a.businessName, name);
  }

  /** compareTo is a total preorder: reflexive, sign-flipping and transitive. */
  lemma CompareToTotalPreorder(a: Recycler, b: Recycler, c: Recycler)
    ensures CompareTo(a, a) == 0
    ensures CompareTo(a, b) == -CompareTo(b, a)
    ensures CompareTo(a, b) <= 0 && CompareTo(b, c) <= 0 ==> CompareTo(a, c) <= 0
  {
    CompareReflexive(a.businessName);
    CompareAntisymmetric(a.businessName, b.businessName);
    if CompareTo(a, b) <= 0 && CompareTo(b, c) <= 0 {
      CompareTransitive(a.businessName, b.businessName, c.businessName);
    }
  }
}
