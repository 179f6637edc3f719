/** The cases of the repository's test suite, derived from the general lemmas
    rather than by evaluation. */
module TchapExamples {
  import opened PyStr
  import opened TchapUsernameEmail

  /** What the callback answers when the raw configuration is `raw` and the
      auth results hold an email stage with `address`, or no email stage when
      `address` is None. */
  function Displayname(raw: map<string, bool>, address: Option<string>): Result<Option<string>> {
    var results: map<string, map<string, string>> :=
      if address.Some? then map[AuthTypeEmail := map[AddressKey := address.value]] else map[];
    ExtractDisplaynameFromEmail(ParseConfig(raw), results)
  }

  /** With the default configuration, the callback answers with the mapped name. */
  lemma DefaultDerives(address: string, name: string)
    requires MapEmailToDisplayname(address) == Ok(name)
    ensures Displayname(map[], Some(address)) == Ok(Some(name))
  {
  }

  /** A word without whitespace is `cap`ped as a single word. */
  lemma CapOneWord(w: string)
    requires w != [] && NoSpace(w)
    ensures Cap(w) == CapWord(w)
  {
    assert AreWords([w]);
    CapJoin([w]);
    assert CapWords([w]) == [CapWord(w)];
  }

  // The words of the tests are passed as parameters fixed by the
  // preconditions, which keeps the solver from unfolding `cap` on literals.

  lemma CapFoo(w: string)
    requires w == "foo"
    ensures CapWord(w) == "Foo"
  {
    assert TitleCase(w) == "Foo";
    CapWordTitleCase(w);
  }

  lemma CapBar(w: string)
    requires w == "bar"
    ensures CapWord(w) == "Bar"
  {
    assert TitleCase(w) == "Bar";
    CapWordTitleCase(w);
  }

  lemma CapBaz(w: string)
    requires w == "baz"
    ensures CapWord(w) == "Baz"
  {
    assert TitleCase(w) == "Baz";
    CapWordTitleCase(w);
  }

  /** Both hyphen pieces of `foo-bar` are capitalised. */
  lemma CapFooBar(w: string)
    requires w == "foo-bar"
    ensures CapWord(w) == "Foo-Bar"
  {
    assert TitleCase(w) == "Foo-Bar";
    CapWordTitleCase(w);
  }

  lemma CapGouv(org: string)
    requires org == "gouv"
    ensures Cap(org) == "Gouv"
  {
    assert TitleCase(org) == "Gouv";
    CapOneWord(org);
    CapWordTitleCase(org);
  }

  lemma CapEducation(org: string)
    requires org == "education"
    ensures Cap(org) == "Education"
  {
    assert TitleCase(org) == "Education";
    CapOneWord(org);
    CapWordTitleCase(org);
  }

  lemma CapNikan(org: string)
    requires org == "nikan"
    ensures Cap(org) == "Nikan"
  {
    assert TitleCase(org) == "Nikan";
    CapOneWord(org);
    CapWordTitleCase(org);
  }

  /** A local part `a.b` is named by the capitalisations of `a` and `b`
      joined with a space. */
  lemma LocalPair(local: string, a: string, b: string, capA: string, capB: string)
    requires AreWords([a, b]) && '.' !in a && '.' !in b && local == a + "." + b
    requires CapWord(a) == capA && CapWord(b) == capB
    ensures Cap(Replace(local, '.', ' ')) == capA + " " + capB
  {
    var names := [a, b];
    assert Join(names, '.') == local;
    LocalPartNames(names);
    assert CapWords(names) == [capA, capB];
  }

  /** The local part `foo.bar` becomes "Foo Bar". */
  lemma LocalFooBar(local: string, first: string, last: string)
    requires first == "foo" && last == "bar" && local == first + "." + last
    ensures Cap(Replace(local, '.', ' ')) == "Foo Bar"
  {
    assert "Foo" + " " + "Bar" == "Foo Bar";
    CapFoo(first);
    CapBar(last);
    LocalPair(local, first, last, "Foo", "Bar");
  }

  /** The local part `foo-bar.baz` becomes "Foo-Bar Baz". */
  lemma LocalFooBarBaz(local: string, first: string, last: string)
    requires first == "foo-bar" && last == "baz" && local == first + "." + last
    ensures Cap(Replace(local, '.', ' ')) == "Foo-Bar Baz"
  {
    assert "Foo-Bar" + " " + "Baz" == "Foo-Bar Baz";
    CapFooBar(first);
    CapBaz(last);
    LocalPair(local, first, last, "Foo-Bar", "Baz");
  }

  /** The local part `foo` becomes "Foo". */
  lemma LocalFoo(local: string)
    requires local == "foo"
    ensures Cap(Replace(local, '.', ' ')) == "Foo"
  {
    var names := [local];
    assert AreWords(names) && NoneContain(names, '.');
    LocalPartNames(names);
    CapFoo(local);
    assert CapWords(names) == ["Foo"];
  }

  // ---------------------------------------------------------------------
  // The domains of the tests

  lemma MatrixOrgAddress(local: string, address: string)
    requires '@' !in local && address == local + "@matrix.org"
    ensures MapEmailToDisplayname(address) == Ok(Cap(Replace(local, '.', ' ')) + " [Tchap Admin]")
  {
    var labels := ["matrix", "org"];
    assert PlainLabels(labels);
    assert address == local + "@" + Join(labels, '.') + "";
    MatrixOrgIsTchapAdmin(local, labels, "");
  }

  lemma GouvFrAddress(local: string, address: string, org: string)
    requires '@' !in local && address == local + "@gouv.fr" && org == "gouv"
    ensures MapEmailToDisplayname(address) == Ok(Cap(Replace(local, '.', ' ')) + " [" + Cap(org) + "]")
  {
    var labels := ["gouv", "fr"];
    assert PlainLabels(labels);
    assert address == local + "@" + Join(labels, '.') + "";
    GouvFrOrganisation(local, labels, "");
  }

  lemma GouvFrSubAddress(local: string, address: string, org: string)
    requires '@' !in local && address == local + "@education.gouv.fr" && org == "education"
    ensures MapEmailToDisplayname(address) == Ok(Cap(Replace(local, '.', ' ')) + " [" + Cap(org) + "]")
  {
    var labels := ["education", "gouv", "fr"];
    assert PlainLabels(labels);
    assert labels[1..] == ["gouv", "fr"];
    assert address == local + "@" + Join(labels, '.') + "";
    GouvFrOrganisation(local, labels, "");
  }

  lemma NikanAddress(local: string, address: string, org: string)
    requires '@' !in local && address == local + "@nikan.com" && org == "nikan"
    ensures MapEmailToDisplayname(address) == Ok(Cap(Replace(local, '.', ' ')) + " [" + Cap(org) + "]")
  {
    var labels := ["nikan", "com"];
    assert PlainLabels(labels);
    assert labels[0..] != ["matrix", "org"] && labels[0..] != ["gouv", "fr"];
    assert address == local + "@" + Join(labels, '.') + "";
    OtherDomainOrganisation(local, labels, "");
  }

  // ---------------------------------------------------------------------
  // The tests, each through the callback with the default configuration

  /** test_matrix_org: `foo.bar@matrix.org` is named "Foo Bar [Tchap Admin]". */
  lemma ExampleMatrixOrg(first: string, last: string, address: string)
    requires first == "foo" && last == "bar"
    requires address == first + "." + last + "@matrix.org"
    ensures Displayname(map[], Some(address)) == Ok(Some("Foo Bar [Tchap Admin]"))
  {
    assert "Foo Bar" + " [Tchap Admin]" == "Foo Bar [Tchap Admin]";
    var local := first + "." + last;
    MatrixOrgAddress(local, address);
    LocalFooBar(local, first, last);
  }

  /** test_gouv_fr: `foo.bar@gouv.fr` is named "Foo Bar [Gouv]". */
  lemma ExampleGouvFr(first: string, last: string, org: string, address: string)
    requires first == "foo" && last == "bar" && org == "gouv"
    requires address == first + "." + last + "@gouv.fr"
    ensures Displayname(map[], Some(address)) == Ok(Some("Foo Bar [Gouv]"))
  {
    assert "Foo Bar" + " [" + "Gouv" + "]" == "Foo Bar [Gouv]";
    var local := first + "." + last;
    GouvFrAddress(local, address, org);
    LocalFooBar(local, first, last);
    CapGouv(org);
  }

  /** test_gouv_fr_sub: `foo.bar@education.gouv.fr` is named "Foo Bar [Education]". */
  lemma ExampleGouvFrSub(first: string, last: string, org: string, address: string)
    requires first == "foo" && last == "bar" && org == "education"
    requires address == first + "." + last + "@education.gouv.fr"
    ensures Displayname(map[], Some(address)) == Ok(Some("Foo Bar [Education]"))
  {
    assert "Foo Bar" + " [" + "Education" + "]" == "Foo Bar [Education]";
    var local := first + "." + last;
    GouvFrSubAddress(local, address, org);
    LocalFooBar(local, first, last);
    CapEducation(org);
  }

  /** test_other_domain: `foo.bar@nikan.com` is named "Foo Bar [Nikan]". */
  lemma ExampleOtherDomain(first: string, last: string, org: string, address: string)
    requires first == "foo" && last == "bar" && org == "nikan"
    requires address == first + "." + last + "@nikan.com"
    ensures Displayname(map[], Some(address)) == Ok(Some("Foo Bar [Nikan]"))
  {
    assert "Foo Bar" + " [" + "Nikan" + "]" == "Foo Bar [Nikan]";
    var local := first + "." + last;
    NikanAddress(local, address, org);
    LocalFooBar(local, first, last);
    CapNikan(org);
  }

  /** test_hyphen: `foo-bar.baz@nikan.com` is named "Foo-Bar Baz [Nikan]". */
  lemma ExampleHyphen(first: string, last: string, org: string, address: string)
    requires first == "foo-bar" && last == "baz" && org == "nikan"
    requires address == first + "." + last + "@nikan.com"
    ensures Displayname(map[], Some(address)) == Ok(Some("Foo-Bar Baz [Nikan]"))
  {
    assert "Foo-Bar Baz" + " [" + "Nikan" + "]" == "Foo-Bar Baz [Nikan]";
    var local := first + "." + last;
    NikanAddress(local, address, org);
    LocalFooBarBaz(local, first, last);
    CapNikan(org);
  }

  /** test_no_last_name: `foo@nikan.com` is named "Foo [Nikan]". */
  lemma ExampleNoLastName(first: string, org: string, address: string)
    requires first == "foo" && org == "nikan"
    requires address == first + "@nikan.com"
    ensures Displayname(map[], Some(address)) == Ok(Some("Foo [Nikan]"))
  {
    assert "Foo" + " [" + "Nikan" + "]" == "Foo [Nikan]";
    var local := first;
    NikanAddress(local, address, org);
    LocalFoo(local);
    CapNikan(org);
  }

  /** `split(" ")` keeps empty labels: in `foo@x..com` the second-level
      label is empty, and so is the organisation. */
  lemma ExampleEmptyLabel(first: string, address: string)
    requires first == "foo" && address == first + "@x..com"
    ensures MapEmailToDisplayname(address) == Ok("Foo []")
  {
    assert "Foo" + " [" + "" + "]" == "Foo []";
    var labels := ["x", "", "com"];
    assert PlainLabels(labels);
    assert labels[1..] != ["matrix", "org"] && labels[1..] != ["gouv", "fr"];
    assert address == first + "@" + Join(labels, '.') + "";
    OtherDomainOrganisation(first, labels, "");
    LocalFoo(first);
  }

  /** A domain with a single label has no second-to-last label to pick. */
  lemma ExampleSingleLabel(first: string, domain: string, address: string)
    requires first == "foo" && domain == "localhost" && address == first + "@" + domain
    ensures MapEmailToDisplayname(address) == Err(IndexError)
  {
    assert address == first + ['@'] + domain;
    TakeUntilStops(first, domain, '@');
    assert address[|first| + 1..] == domain;
    assert '@' !in domain && '.' !in domain && ' ' !in domain;
    var d := TakeUntil(domain, '@');
    assert d == domain[..|d|];
    MapEmailOkIff(address);
  }

  /** An address without '@' has no domain at all. */
  lemma ExampleNoAt(address: string)
    requires address == "foo.bar"
    ensures MapEmailToDisplayname(address) == Err(IndexError)
  {
    assert TakeUntil(address, '@') == address;
    MapEmailOkIff(address);
  }

  /** test_no_email */
  lemma ExampleNoEmail()
    ensures Displayname(map[], None) == Ok(None)
  {
  }

  /** test_not_extract */
  lemma ExampleNotExtract()
    ensures Displayname(map[ExtractFromEmailKey := false], Some("foo@nikan.com")) == Ok(Some("foo@nikan.com"))
  {
  }
}
