/** The Tchap registration module: derives a display name from the email
    address a user proved ownership of during user-interactive auth. */
module TchapUsernameEmail {
  import opened PyStr

  /** The auth type under which the host reports a verified email address. */
  const AuthTypeEmail: string := "m.login.email.identity"
  const ExtractFromEmailKey: string := "extract_from_email"
  const AddressKey: string := "address"

  /** The module's frozen configuration. */
  datatype Config = Config(extractFromEmail: bool)

  datatype Option<T> = None | Some(value: T)

  /** The Python exceptions the code can raise on inputs it does not expect. */
  datatype PyError =
    | IndexError  // an address without '@', or a domain with a single label
    | KeyError    // an email auth result without an "address" entry

  datatype Result<T> = Ok(value: T) | Err(error: PyError)

  // ---------------------------------------------------------------------
  // cap

  /** `capitalize` applied to each piece of a word. */
  function CapitalizeEach(pieces: seq<string>): seq<string> {
    seq(|pieces|, i requires 0 <= i < |pieces| => Capitalize(pieces[i]))
  }

  /** One whitespace-delimited word of `cap`: `"-".join(p.capitalize() for p in word.split("-"))`. */
  function CapWord(word: string): string {
    Join(CapitalizeEach(SplitOn(word, '-')), '-')
  }

  function CapWords(words: seq<string>): seq<string> {
    seq(|words|, i requires 0 <= i < |words| => CapWord(words[i]))
  }

  /** `cap(name)`: capitalise every hyphen piece of every word, and join the
      words with single spaces. */
  function Cap(name: string): string {
    if name == [] then name
    else Join(CapWords(SplitWs(name)), ' ')
  }

  /** A reference definition of one capitalised word, character by character:
      upper-case at the start and right after a hyphen, lower-case elsewhere. */
  function TitleCase(w: string): string {
    seq(|w|, i requires 0 <= i < |w| => if i == 0 || w[i - 1] == '-' then Upper(w[i]) else Lower(w[i]))
  }

  lemma CapWordCons(h: string, t: string)
    requires '-' !in h
    ensures CapWord(h + ['-'] + t) == Capitalize(h) + ['-'] + CapWord(t)
  {
    SplitOnCons(h, t, '-');
    var rest := SplitOn(t, '-');
    assert CapitalizeEach([h] + rest) == [Capitalize(h)] + CapitalizeEach(rest);
    JoinCons(Capitalize(h), CapitalizeEach(rest), '-');
  }

  lemma TitleCaseCons(h: string, t: string)
    requires '-' !in h
    ensures TitleCase(h + ['-'] + t) == Capitalize(h) + ['-'] + TitleCase(t)
  {
    var w := h + ['-'] + t;
    var lhs, rhs := TitleCase(w), Capitalize(h) + ['-'] + TitleCase(t);
    CaseLaws('-');
    forall i | 0 <= i < |w| ensures lhs[i] == rhs[i] {
      if i < |h| {
        assert w[i] == h[i];
        assert i > 0 ==> w[i - 1] == h[i - 1];
      } else if i > |h| {
        assert w[i] == t[i - |h| - 1];
        assert i - 1 > |h| ==> w[i - 1] == t[i - |h| - 2];
      }
    }
  }

  /** `cap` on one word agrees with the character-by-character definition. */
  lemma {:induction false} CapWordTitleCase(w: string)
    ensures CapWord(w) == TitleCase(w)
    decreases |w|
  {
    var h := TakeUntil(w, '-');
    if |h| == |w| {
      assert h == w;
      var pieces := SplitOn(w, '-');
      assert pieces == [w];
      assert CapWord(w) == Capitalize(w);
    } else {
      var t := w[|h| + 1..];
      assert w == h + ['-'] + t;
      CapWordCons(h, t);
      TitleCaseCons(h, t);
      CapWordTitleCase(t);
    }
  }

  /** A capitalised word has the length of the original, keeps exactly its
      hyphens and its whitespace, and differs from it only in letter case. */
  lemma CapWordShape(w: string)
    ensures |CapWord(w)| == |w|
    ensures forall i :: 0 <= i < |w| ==> (CapWord(w)[i] == '-') == (w[i] == '-')
    ensures forall i :: 0 <= i < |w| ==> IsSpace(CapWord(w)[i]) == IsSpace(w[i])
    ensures forall i :: 0 <= i < |w| ==> Lower(CapWord(w)[i]) == Lower(w[i])
  {
    CapWordTitleCase(w);
    forall i | 0 <= i < |w| {
      CaseLaws(w[i]);
    }
  }

  /** Capitalising a word a second time changes nothing. */
  lemma CapWordIdempotent(w: string)
    ensures CapWord(CapWord(w)) == CapWord(w)
  {
    var c := CapWord(w);
    CapWordTitleCase(w);
    CapWordTitleCase(c);
    CapWordShape(w);
    forall i | 0 <= i < |w| ensures TitleCase(c)[i] == c[i] {
      CaseLaws(w[i]);
    }
  }

  /** Splitting a capitalised word at its hyphens gives the capitalised pieces
      of the original word, and each of them is in `capitalize` form. */
  lemma CapWordPieces(w: string)
    ensures var pieces := SplitOn(w, '-');
      SplitOn(CapWord(w), '-') == CapitalizeEach(pieces)
    ensures var pieces := SplitOn(CapWord(w), '-');
      forall i :: 0 <= i < |pieces| ==> IsCapitalized(pieces[i])
  {
    var pieces := SplitOn(w, '-');
    var caps := CapitalizeEach(pieces);
    forall i | 0 <= i < |caps| ensures '-' !in caps[i] && IsCapitalized(caps[i]) {
      assert '-' !in pieces[i];
      forall k | 0 <= k < |pieces[i]| ensures caps[i][k] != '-' {
        CaseLaws(pieces[i][k]);
      }
      CapitalizeIsCapitalized(pieces[i]);
    }
    SplitOnJoin(caps, '-');
  }

  lemma CapWordsAreWords(words: seq<string>)
    requires AreWords(words)
    ensures AreWords(CapWords(words))
  {
    forall i | 0 <= i < |words| ensures CapWords(words)[i] != [] && NoSpace(CapWords(words)[i]) {
      CapWordShape(words[i]);
    }
  }

  /** `cap` produces the empty string exactly when its input holds no
      character other than whitespace. */
  lemma CapEmptyIff(name: string)
    ensures Cap(name) == [] <==> forall i :: 0 <= i < |name| ==> IsSpace(name[i])
  {
    if name != [] {
      var words := SplitWs(name);
      SplitWsEmptyIff(name);
      if words != [] {
        CapWordsAreWords(words);
        JoinHead(CapWords(words), ' ');
      }
    }
  }

  /** The words of `cap(name)` are the capitalised words of `name`, one for one. */
  lemma CapWordsPreserved(name: string)
    ensures SplitWs(Cap(name)) == CapWords(SplitWs(name))
  {
    if name != [] {
      CapWordsAreWords(SplitWs(name));
      SplitWsJoin(CapWords(SplitWs(name)));
    }
  }

  /** `cap(name)` has no leading, trailing or repeated whitespace, and the
      only whitespace it has is plain spaces. */
  lemma CapSingleSpaced(name: string)
    ensures SingleSpaced(Cap(name))
  {
    if name != [] {
      CapWordsAreWords(SplitWs(name));
      JoinSingleSpaced(CapWords(SplitWs(name)));
    }
  }

  /** Every hyphen piece of every word of `cap(name)` is in `capitalize` form. */
  lemma CapPiecesCapitalized(name: string)
    ensures var words := SplitWs(Cap(name));
      forall i, j :: 0 <= i < |words| && 0 <= j < |SplitOn(words[i], '-')| ==>
        IsCapitalized(SplitOn(words[i], '-')[j])
  {
    CapWordsPreserved(name);
    var words := SplitWs(name);
    forall i | 0 <= i < |words| {
      CapWordPieces(words[i]);
    }
  }

  /** `cap` is idempotent. */
  lemma CapIdempotent(name: string)
    ensures Cap(Cap(name)) == Cap(name)
  {
    var c := Cap(name);
    if c != [] {
      var words := SplitWs(name);
      CapWordsPreserved(name);
      forall i | 0 <= i < |words| ensures CapWords(CapWords(words))[i] == CapWords(words)[i] {
        CapWordIdempotent(words[i]);
      }
      assert CapWords(CapWords(words)) == CapWords(words);
    }
  }

  /** `cap` of words joined by single spaces joins their capitalised forms. */
  lemma CapJoin(words: seq<string>)
    requires AreWords(words)
    ensures Cap(Join(words, ' ')) == Join(CapWords(words), ' ')
  {
    SplitWsJoin(words);
    if words == [] {
      assert CapWords(words) == [];
    } else {
      JoinHead(words, ' ');
    }
  }

  lemma TchapIsTitleCase()
    ensures CapWord("Tchap") == "Tchap"
  {
    var w := "Tchap";
    assert w[0] == Upper('T') && w[1] == Lower('c') && w[2] == Lower('h');
    assert w[3] == Lower('a') && w[4] == Lower('p');
    assert TitleCase(w) == w;
    CapWordTitleCase(w);
  }

  lemma AdminIsTitleCase()
    ensures CapWord("Admin") == "Admin"
  {
    var w := "Admin";
    assert w[0] == Upper('A') && w[1] == Lower('d') && w[2] == Lower('m');
    assert w[3] == Lower('i') && w[4] == Lower('n');
    assert TitleCase(w) == w;
    CapWordTitleCase(w);
  }

  lemma CapWordsTchapAdmin()
    ensures CapWords(["Tchap", "Admin"]) == ["Tchap", "Admin"]
  {
    TchapIsTitleCase();
    AdminIsTitleCase();
  }

  /** The organisation literal for matrix.org addresses comes out of `cap` as it went in. */
  lemma CapTchapAdmin()
    ensures Cap("Tchap Admin") == "Tchap Admin"
  {
    var words := ["Tchap", "Admin"];
    assert Join(words, ' ') == "Tchap Admin";
    assert AreWords(words);
    CapJoin(words);
    CapWordsTchapAdmin();
  }

  // ---------------------------------------------------------------------
  // _map_email_to_displayname

  /** `_map_email_to_displayname(address)`: dots become spaces in the whole
      address; the local part is capitalised and followed by the organisation
      read from the domain's last labels. */
  function MapEmailToDisplayname(address: string): Result<string> {
    var parts := SplitOn(Replace(address, '.', ' '), '@');
    if |parts| < 2 then Err(IndexError)
    else
      var orgParts := SplitOn(parts[1], ' ');
      var n := |orgParts|;
      if n < 2 then Err(IndexError)
      else Ok(Cap(parts[0]) + " [" + Cap(Organisation(orgParts)) + "]")
  }

  /** The organisation chosen from the domain labels: "Tchap Admin" for
      matrix.org, the label before gouv.fr (or "gouv") for gouv.fr, and the
      second-level label otherwise. */
  function Organisation(orgParts: seq<string>): string
    requires |orgParts| >= 2
  {
    var n := |orgParts|;
    if orgParts[n - 2] == "matrix" && orgParts[n - 1] == "org" then "Tchap Admin"
    else if orgParts[n - 2] == "gouv" && orgParts[n - 1] == "fr" then
      (if n > 2 then orgParts[n - 3] else orgParts[n - 2])
    else orgParts[n - 2]
  }

  /** The address has an '@', and the text between it and the next '@' (or
      the end) holds a '.' or a space, so that it splits into two labels. */
  predicate HasTwoLabels(address: string) {
    var i := |TakeUntil(address, '@')|;
    i < |address| &&
    var domain := TakeUntil(address[i + 1..], '@');
    '.' in domain || ' ' in domain
  }

  lemma ReplaceKeepsSpot(s: string, c: char)
    requires c != '.' && c != ' '
    ensures c in Replace(s, '.', ' ') <==> c in s
  {
    var r := Replace(s, '.', ' ');
    if c in s {
      var k :| 0 <= k < |s| && s[k] == c;
      assert r[k] == c;
    }
  }

  lemma ReplaceHasSpace(s: string)
    ensures ' ' in Replace(s, '.', ' ') <==> '.' in s || ' ' in s
  {
    var r := Replace(s, '.', ' ');
    if '.' in s || ' ' in s {
      var k :| 0 <= k < |s| && (s[k] == '.' || s[k] == ' ');
      assert r[k] == ' ';
    }
  }

  /** Turning dots into spaces leaves the '@' positions alone, so the
      address splits at '@' into at least two parts exactly when it holds one. */
  lemma SplitAtIff(address: string)
    ensures |SplitOn(Replace(address, '.', ' '), '@')| >= 2 <==> |TakeUntil(address, '@')| < |address|
  {
    var s := Replace(address, '.', ' ');
    SplitOnSingle(s, '@');
    ReplaceKeepsSpot(address, '@');
    SplitOnSingle(address, '@');
    SplitOnFirst(address, '@');
  }

  /** The second part is the domain, up to the next '@', with its dots turned
      into spaces. */
  lemma SecondPart(address: string)
    requires |TakeUntil(address, '@')| < |address|
    ensures |SplitOn(Replace(address, '.', ' '), '@')| >= 2
    ensures var i := |TakeUntil(address, '@')|;
      SplitOn(Replace(address, '.', ' '), '@')[1] == Replace(TakeUntil(address[i + 1..], '@'), '.', ' ')
  {
    var s := Replace(address, '.', ' ');
    var parts := SplitOn(s, '@');
    var i := |TakeUntil(address, '@')|;
    SplitAtIff(address);
    TakeUntilReplace(address, '@', '.', ' ');
    assert |TakeUntil(s, '@')| == i;
    SplitOnFirst(s, '@');
    assert s[i + 1..] == Replace(address[i + 1..], '.', ' ');
    assert parts[1..] == SplitOn(s[i + 1..], '@');
    SplitOnFirst(s[i + 1..], '@');
    TakeUntilReplace(address[i + 1..], '@', '.', ' ');
  }

  /** The mapping fails with an IndexError exactly when the address has no
      '@' or its domain has a single label; otherwise it yields a name. */
  lemma MapEmailOkIff(address: string)
    ensures MapEmailToDisplayname(address).Ok? <==> HasTwoLabels(address)
    ensures MapEmailToDisplayname(address).Err? ==> MapEmailToDisplayname(address).error == IndexError
  {
    SplitAtIff(address);
    var i := |TakeUntil(address, '@')|;
    if i < |address| {
      SecondPart(address);
      var domain := TakeUntil(address[i + 1..], '@');
      SplitOnSingle(Replace(domain, '.', ' '), ' ');
      ReplaceHasSpace(domain);
    }
  }

  lemma ReplaceAddress(local: string, domain: string, tail: string)
    ensures Replace(local + "@" + domain + tail, '.', ' ')
      == Replace(local, '.', ' ') + ['@'] + Replace(domain, '.', ' ') + Replace(tail, '.', ' ')
  {
    ReplaceAppend(local + "@" + domain, tail, '.', ' ');
    ReplaceAppend(local + "@", domain, '.', ' ');
    ReplaceAppend(local, "@", '.', ' ');
  }

  /** Splitting `l@d` or `l@d@...` at '@' gives `l` and `d` first. */
  lemma SplitAddress(l: string, d: string, t: string)
    requires '@' !in l && '@' !in d
    requires t == [] || t[0] == '@'
    ensures var parts := SplitOn(l + ['@'] + d + t, '@');
      |parts| >= 2 && parts[0] == l && parts[1] == d
  {
    SplitOnSingle(d, '@');
    if t == [] {
      assert l + ['@'] + d + t == l + ['@'] + d;
      SplitOnCons(l, d, '@');
    } else {
      assert l + ['@'] + d + t == l + ['@'] + (d + ['@'] + t[1..]);
      SplitOnCons(l, d + ['@'] + t[1..], '@');
      SplitOnCons(d, t[1..], '@');
    }
  }

  /** The domain labels a mapping sees. */
  predicate PlainLabels(labels: seq<string>) {
    |labels| >= 2 && NoneContain(labels, '.') && NoneContain(labels, ' ') && NoneContain(labels, '@')
  }

  /** For an address `local@label1.label2...labelN` (optionally followed by a
      further '@' segment, which is ignored), the address splits into the local
      part with its dots turned into spaces and exactly the labels of the domain. */
  lemma AddressParts(local: string, labels: seq<string>, tail: string)
    requires '@' !in local && PlainLabels(labels)
    requires tail == [] || tail[0] == '@'
    ensures var parts := SplitOn(Replace(local + "@" + Join(labels, '.') + tail, '.', ' '), '@');
      |parts| >= 2 && parts[0] == Replace(local, '.', ' ') && SplitOn(parts[1], ' ') == labels
  {
    var l, d, t := Replace(local, '.', ' '), Join(labels, ' '), Replace(tail, '.', ' ');
    assert Replace(local + "@" + Join(labels, '.') + tail, '.', ' ') == l + ['@'] + d + t by {
      ReplaceJoin(labels, '.', ' ');
      ReplaceAddress(local, Join(labels, '.'), tail);
    }
    JoinAbsent(labels, ' ', '@');
    assert '@' !in l by {
      ReplaceKeepsSpot(local, '@');
    }
    assert t != [] ==> t[0] == '@';
    SplitAddress(l, d, t);
    SplitOnJoin(labels, ' ');
  }

  /** The display name of such an address. */
  lemma DomainLabels(local: string, labels: seq<string>, tail: string)
    requires '@' !in local && PlainLabels(labels)
    requires tail == [] || tail[0] == '@'
    ensures MapEmailToDisplayname(local + "@" + Join(labels, '.') + tail)
      == Ok(Cap(Replace(local, '.', ' ')) + " [" + Cap(Organisation(labels)) + "]")
  {
    AddressParts(local, labels, tail);
  }

  lemma OrganisationMatrix(labels: seq<string>)
    requires |labels| >= 2 && labels[|labels| - 2..] == ["matrix", "org"]
    ensures Cap(Organisation(labels)) == "Tchap Admin"
  {
    var n := |labels|;
    assert labels[n - 2] == labels[n - 2..][0] && labels[n - 1] == labels[n - 2..][1];
    CapTchapAdmin();
  }

  lemma BracketTchapAdmin(name: string)
    ensures name + " [" + "Tchap Admin" + "]" == name + " [Tchap Admin]"
  {
  }

  lemma OrganisationOther(labels: seq<string>)
    requires |labels| >= 2
    requires labels[|labels| - 2..] != ["matrix", "org"] && labels[|labels| - 2..] != ["gouv", "fr"]
    ensures Organisation(labels) == labels[|labels| - 2]
  {
    var n := |labels|;
    assert labels[n - 2..] == [labels[n - 2], labels[n - 1]];
  }

  /** Any address on matrix.org or one of its subdomains gets the organisation
      "Tchap Admin". */
  lemma MatrixOrgIsTchapAdmin(local: string, labels: seq<string>, tail: string)
    requires '@' !in local && PlainLabels(labels)
    requires tail == [] || tail[0] == '@'
    requires labels[|labels| - 2..] == ["matrix", "org"]
    ensures MapEmailToDisplayname(local + "@" + Join(labels, '.') + tail)
      == Ok(Cap(Replace(local, '.', ' ')) + " [Tchap Admin]")
  {
    DomainLabels(local, labels, tail);
    OrganisationMatrix(labels);
    BracketTchapAdmin(Cap(Replace(local, '.', ' ')));
  }

  /** An address on gouv.fr takes its organisation from the label before
      "gouv", or is "Gouv" when gouv.fr is the whole domain. */
  lemma GouvFrOrganisation(local: string, labels: seq<string>, tail: string)
    requires '@' !in local && PlainLabels(labels)
    requires tail == [] || tail[0] == '@'
    requires labels[|labels| - 2..] == ["gouv", "fr"]
    ensures var org := if |labels| > 2 then labels[|labels| - 3] else "gouv";
      MapEmailToDisplayname(local + "@" + Join(labels, '.') + tail)
        == Ok(Cap(Replace(local, '.', ' ')) + " [" + Cap(org) + "]")
  {
    DomainLabels(local, labels, tail);
    var n := |labels|;
    assert labels[n - 2] == labels[n - 2..][0] && labels[n - 1] == labels[n - 2..][1];
  }

  /** Any other address takes its organisation from the second-level domain. */
  lemma OtherDomainOrganisation(local: string, labels: seq<string>, tail: string)
    requires '@' !in local && PlainLabels(labels)
    requires tail == [] || tail[0] == '@'
    requires labels[|labels| - 2..] != ["matrix", "org"] && labels[|labels| - 2..] != ["gouv", "fr"]
    ensures MapEmailToDisplayname(local + "@" + Join(labels, '.') + tail)
      == Ok(Cap(Replace(local, '.', ' ')) + " [" + Cap(labels[|labels| - 2]) + "]")
  {
    DomainLabels(local, labels, tail);
    OrganisationOther(labels);
  }

  /** A local part made of dot-separated names becomes those names,
      capitalised and separated by single spaces. */
  lemma LocalPartNames(names: seq<string>)
    requires AreWords(names) && NoneContain(names, '.')
    ensures Cap(Replace(Join(names, '.'), '.', ' ')) == Join(CapWords(names), ' ')
  {
    ReplaceJoin(names, '.', ' ');
    CapJoin(names);
  }

  // ---------------------------------------------------------------------
  // parse_config and the registration callback

  /** `parse_config(raw)`: the flag is read from the raw configuration and
      defaults to true. */
  function ParseConfig(raw: map<string, bool>): (config: Config)
    ensures ExtractFromEmailKey !in raw ==> config.extractFromEmail
    ensures ExtractFromEmailKey in raw ==> config.extractFromEmail == raw[ExtractFromEmailKey]
  {
    Config(if ExtractFromEmailKey in raw then raw[ExtractFromEmailKey] else true)
  }

  /** `extract_displayname_from_email(uia_results, params)`: no opinion without
      an email auth result; otherwise the address, mapped to a name when the
      configuration asks for it. */
  function ExtractDisplaynameFromEmail(config: Config, uiaResults: map<string, map<string, string>>)
    : (r: Result<Option<string>>)
    ensures r == Ok(None) <==> AuthTypeEmail !in uiaResults
    ensures AuthTypeEmail in uiaResults && AddressKey !in uiaResults[AuthTypeEmail] ==> r == Err(KeyError)
    ensures AuthTypeEmail in uiaResults && AddressKey in uiaResults[AuthTypeEmail] ==>
      var address := uiaResults[AuthTypeEmail][AddressKey];
      && (!config.extractFromEmail ==> r == Ok(Some(address)))
      && (config.extractFromEmail ==>
            match MapEmailToDisplayname(address)
            case Ok(name) => r == Ok(Some(name))
            case Err(e) => r == Err(e))
  {
    if AuthTypeEmail in uiaResults then
      var entry := uiaResults[AuthTypeEmail];
      if AddressKey !in entry then Err(KeyError)
      else
        var address := entry[AddressKey];
        if config.extractFromEmail then
          match MapEmailToDisplayname(address)
          case Ok(name) => Ok(Some(name))
          case Err(e) => Err(e)
        else Ok(Some(address))
    else Ok(None)
  }
}
