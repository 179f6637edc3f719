# Tchap display name from email — a Dafny model

A Synapse module for Tchap. When a user registers through user-interactive
auth and has proved ownership of an email address, the module offers a
display name derived from that address. `jean.dupont@education.gouv.fr`
becomes `Jean Dupont [Education]`:

- the local part is split into names at its dots, and each name is capitalised;
- the organisation comes from the domain and is shown in brackets.

A `matrix.org` address gets the organisation `Tchap Admin`. A `gouv.fr`
address gets the label before `gouv`, or `gouv` itself. Any other address
gets its second-level domain label.

The project has three modules:

- `PyStr` (`py_str.dfy`) models the Python `str` built-ins the code uses:
  - `isspace`, and `upper`/`lower` on ASCII;
  - `capitalize`;
  - `split()` with no argument, which splits on whitespace runs and drops empty pieces;
  - `split(sep)`, which keeps empty pieces;
  - `join` and single-character `replace`.

  Each is stated together with the laws the rest of the model needs.
  `split()` is proved equal to an independent reference: cut at every
  whitespace character, then drop the empty pieces. `split(sep)` and `join`
  are proved inverse to each other.
- `TchapUsernameEmail` (`tchap_username_email.dfy`) models the core:
  - `cap`;
  - `_map_email_to_displayname`;
  - `parse_config`;
  - the registration callback `extract_displayname_from_email`, as a pure
    function of the frozen configuration and the auth results.

  The Python exceptions raised on unexpected input become `Err` values of a
  `Result`, not preconditions:
  - an `IndexError` for an address without `@`, or for a domain with a single label;
  - a `KeyError` for an email result without an `address`.
- `TchapExamples` (`tchap_examples.dfy`) derives each case of the repository's
  test suite from the general lemmas. It adds three edge cases: an empty
  domain label, a single-label domain and a missing `@`.

`cap("Tchap Admin")`: the code passes the organisation through `cap` in every
branch, including the `matrix.org` one
(`tchap_username_email/__init__.py:123`). The model follows the code, and
`CapTchapAdmin` proves that `cap` leaves `Tchap Admin` unchanged. The visible
result is therefore the same as if the literal were used directly.

## Model

| member | source | states |
|---|---|---|
| PyStr.CapitalizeIsCapitalized | tchap_username_email/__init__.py:87 | `str.capitalize` makes the first character upper-case and every other character lower-case |
| PyStr.SplitOnJoin | tchap_username_email/__init__.py:87 | `split(sep)` undoes `sep.join(...)` of pieces without `sep`, so the pieces come back one for one, empty ones included |
| PyStr.SplitOnSingle | tchap_username_email/__init__.py:104-107 | `split(sep)` yields a single piece exactly when `sep` does not occur |
| PyStr.SplitOnCons | tchap_username_email/__init__.py:104 | splitting `a + sep + b` with `sep` not in `a` gives `a` followed by the pieces of `b` |
| PyStr.SplitWsReference | tchap_username_email/__init__.py:88 | `split()` equals cutting at every whitespace character and dropping the empty pieces |
| PyStr.SplitWsJoin | tchap_username_email/__init__.py:86-88 | `split()` of words joined with single spaces gives back exactly those words |
| PyStr.SplitWsEmptyIff | tchap_username_email/__init__.py:88 | `split()` finds no word exactly when every character is whitespace |
| PyStr.JoinSingleSpaced | tchap_username_email/__init__.py:86 | `" ".join` of non-empty words without whitespace has no leading, trailing or doubled whitespace |
| PyStr.ReplaceJoin | tchap_username_email/__init__.py:104 | replacing `.` with a space in `".".join(names)` gives `" ".join(names)` when no name holds either character |
| PyStr.TakeUntilReplace | tchap_username_email/__init__.py:104 | replacing `.` with a space does not move the first `@` |
| TchapUsernameEmail.CapWordTitleCase | tchap_username_email/__init__.py:87 | a capitalised word is upper-case at its start and right after each hyphen, and lower-case everywhere else |
| TchapUsernameEmail.CapWordCons | tchap_username_email/__init__.py:87 | capitalising `h-t` capitalises `h` as one piece and then capitalises `t` |
| TchapUsernameEmail.CapWordShape | tchap_username_email/__init__.py:87 | a capitalised word has the original's length, hyphens and whitespace, and differs from it only in letter case |
| TchapUsernameEmail.CapWordIdempotent | tchap_username_email/__init__.py:87 | capitalising a word twice equals capitalising it once |
| TchapUsernameEmail.CapWordPieces | tchap_username_email/__init__.py:87 | the hyphen pieces of a capitalised word are the capitalised pieces of the original, each in `capitalize` form |
| TchapUsernameEmail.CapWordsAreWords | tchap_username_email/__init__.py:86-88 | capitalising words keeps them non-empty and free of whitespace |
| TchapUsernameEmail.CapEmptyIff | tchap_username_email/__init__.py:81-89 | `cap(name)` is empty exactly when `name` is empty or all whitespace |
| TchapUsernameEmail.CapWordsPreserved | tchap_username_email/__init__.py:86-89 | the words of `cap(name)` are the capitalised words of `name`, one for one and in order |
| TchapUsernameEmail.CapSingleSpaced | tchap_username_email/__init__.py:86-89 | `cap(name)` has no leading, trailing or repeated whitespace, and its only whitespace is plain spaces |
| TchapUsernameEmail.CapPiecesCapitalized | tchap_username_email/__init__.py:86-89 | every hyphen piece of every word of `cap(name)` is in `capitalize` form |
| TchapUsernameEmail.CapIdempotent | tchap_username_email/__init__.py:72-90 | `cap(cap(name)) == cap(name)` |
| TchapUsernameEmail.CapJoin | tchap_username_email/__init__.py:86-88 | `cap` of words joined by single spaces joins the capitalised words |
| TchapUsernameEmail.CapTchapAdmin | tchap_username_email/__init__.py:123 | `cap("Tchap Admin") == "Tchap Admin"` |
| TchapUsernameEmail.SplitAtIff | tchap_username_email/__init__.py:104 | the address splits at `@` into two or more parts exactly when it contains an `@` |
| TchapUsernameEmail.SecondPart | tchap_username_email/__init__.py:104-107 | `parts[1]` is the text between the first and second `@` (or the end), with dots turned into spaces |
| TchapUsernameEmail.MapEmailOkIff | tchap_username_email/__init__.py:104-110 | the mapping yields a name exactly when the address has an `@` and the text after it (up to any next `@`) has a `.` or a space; in every other case it fails with an IndexError |
| TchapUsernameEmail.AddressParts | tchap_username_email/__init__.py:104-107 | for `local@l1.l2...ln[@...]`, `parts[0]` is the local part with dots turned into spaces and `org_parts` is exactly `[l1, ..., ln]` |
| TchapUsernameEmail.DomainLabels | tchap_username_email/__init__.py:104-123 | such an address is named `cap(local with dots as spaces) + " [" + cap(org) + "]"`, with org chosen from its labels; anything after a second `@` is ignored |
| TchapUsernameEmail.OrganisationMatrix | tchap_username_email/__init__.py:110-111 | labels ending in `matrix`, `org` give the organisation `Tchap Admin` after `cap` |
| TchapUsernameEmail.OrganisationOther | tchap_username_email/__init__.py:120-121 | labels ending in neither `matrix org` nor `gouv fr` give the second-to-last label |
| TchapUsernameEmail.MatrixOrgIsTchapAdmin | tchap_username_email/__init__.py:110-123 | any address on `matrix.org` or a subdomain of it is named with the suffix ` [Tchap Admin]` |
| TchapUsernameEmail.GouvFrOrganisation | tchap_username_email/__init__.py:116-117 | an address on `gouv.fr` takes the label before `gouv` when there is one, and `gouv` otherwise |
| TchapUsernameEmail.OtherDomainOrganisation | tchap_username_email/__init__.py:120-121 | any other address takes its second-to-last domain label as the organisation |
| TchapUsernameEmail.LocalPartNames | tchap_username_email/__init__.py:104 | a local part of dot-separated names becomes those names, capitalised and joined by single spaces |
| TchapUsernameEmail.ParseConfig | tchap_username_email/__init__.py:38-42 | `extract_from_email` is the raw value when it is present and true when it is absent |
| TchapUsernameEmail.ExtractDisplaynameFromEmail | tchap_username_email/__init__.py:61-69 | no name (None) exactly when there is no email auth result; a KeyError when that result has no address; otherwise the raw address when extraction is off, and the mapped name (or its error) when it is on |
| TchapExamples.DefaultDerives | tests/test_username.py:83-95 | with the default configuration, the callback answers with the name the mapping gives |
| TchapExamples.ExampleNoEmail | tests/test_username.py:23-27 | no email auth result gives None |
| TchapExamples.ExampleMatrixOrg | tests/test_username.py:29-35 | `foo.bar@matrix.org` gives `Foo Bar [Tchap Admin]` |
| TchapExamples.ExampleGouvFr | tests/test_username.py:37-43 | `foo.bar@gouv.fr` gives `Foo Bar [Gouv]` |
| TchapExamples.ExampleGouvFrSub | tests/test_username.py:45-51 | `foo.bar@education.gouv.fr` gives `Foo Bar [Education]` |
| TchapExamples.ExampleOtherDomain | tests/test_username.py:53-59 | `foo.bar@nikan.com` gives `Foo Bar [Nikan]` |
| TchapExamples.ExampleHyphen | tests/test_username.py:61-67 | `foo-bar.baz@nikan.com` gives `Foo-Bar Baz [Nikan]` |
| TchapExamples.ExampleNoLastName | tests/test_username.py:69-73 | `foo@nikan.com` gives `Foo [Nikan]` |
| TchapExamples.ExampleNotExtract | tests/test_username.py:75-81 | with `extract_from_email` false, the address comes back unchanged |
| TchapExamples.ExampleEmptyLabel | tchap_username_email/__init__.py:107-121 | `split(" ")` keeps empty labels, so `foo@x..com` gives `Foo []` |
| TchapExamples.ExampleSingleLabel | tchap_username_email/__init__.py:107-110 | `foo@localhost` fails with an IndexError |
| TchapExamples.ExampleNoAt | tchap_username_email/__init__.py:104-107 | `foo.bar` fails with an IndexError |

## Left out

- The Synapse host API is not modelled: `ModuleApi` and the callback registration in `__init__` (`tchap_username_email/__init__.py:18`, `:33-35`). The configuration that `__init__` stores is a parameter of the callback instead.
- `async` on the callback is not modelled. Nothing in it suspends, so it is an ordinary function.
- The `attr` frozen class is not modelled. The configuration is a one-field datatype.
- The callback's `params` argument is not modelled. The code never reads it.
- Characters are modelled on ASCII only. Only ASCII letters change case in `capitalize`, and whitespace is Python's ASCII `isspace` set (tab, line feed, vertical tab, form feed, carriage return, the separators 28-31 and space). Unicode case mapping, title-case characters and Unicode whitespace are not modelled.
- The raw configuration is a map to booleans. Python truthiness of other value types under the `extract_from_email` key is not modelled.
- The uia results are a map from auth type to a map of strings. A non-dictionary entry, or a non-string address, would raise a different Python error. That is not modelled.
- The test harness is not modelled: mocks, `aiounittest` and `create_module`. The tests serve as concrete examples only. The test file imports `tchap_displayname_email` / `TchapDisplaynameEmail`, while the package is `tchap_username_email` / `TchapUsernameEmail`; the model follows the package.
