# Measurement Protocol parameter validators, in Dafny

This project models the validator registry of a Google Analytics Measurement
Protocol client (`google_measurement_protocol/validator.py`). For every hit
parameter (`tid`, `cid`, `uip`, `dp`, `cu`, …) the module defines a predicate
`is_<key>(value)` and a wrapper `validate_<key>(value)` that raises
`ValidationError` when the predicate is false. Each predicate is one of a few
shapes:

- a string no longer than a cap;
- a non-negative `int` (`is_integer`) or `int`/`float` (`is_currency`);
- membership in a tuple of options (`is_boolean`, `aip`, `sc`, `t`, `pa`) or in
  the ISO 4217 table (`cu`);
- a regular-expression format (`tid`, `cid`, `uip`, `dr`, `dl`, `dh`, `dp`).

The model is pure, as the source is: datatypes, functions and lemmas.

- `python.dfy` (module `Python`): the dynamic values a parameter can hold
  (`None`, `str`, `int`, `bool`, `float`). It also gives Python's `==` across
  them, where `bool` and `float` compare equal to the same integer, and `in` on
  a tuple and the `isinstance` tests.
- `text.dfy` (module `Text`): character classes of Python 2.7's `re` on byte
  strings, the values of digit strings, the greedy `\d+` run, and
  `str.split`/`join`.
- `patterns.dfy` (module `Patterns`): the tracking-ID, IPv4, document-path and
  client-ID patterns, written out by hand. Each comes with lemmas that compose
  and decompose the strings it accepts. The module also models Python's `$`.
- `uuid.dfy` (modules `Wrappers`, `Uuid`): the part of `uuid.UUID` that
  `is_cid` uses. It covers parsing dashed hex into the 128-bit integer and the
  `variant` and `version` properties taken from its bits. The module proves
  which characters of a dashed-hex string decide "version 4".
- `validator.dfy` (module `Validator`): `ValidationError`, the helpers, the
  rule of every parameter (`RuleOf`), `IsValid` (`is_<key>`), `Validate`
  (`validate_<key>`) and the properties of the registry.

The IPv6, URL and host regular expressions and the ISO 4217 table are
parameters of every statement (the `Oracles` value), so each property holds
whatever they contain.

validator.py:367 caps `an` at 100 characters; `Validator.TextCap100` states it.

## Model

| member | source | states |
|---|---|---|
| Validator.Validate | google_measurement_protocol/validator.py:35-37 | `validate_<key>` raises exactly when `is_<key>` is false, and the error carries that parameter's message; otherwise it does nothing |
| Validator.ValidateNone | google_measurement_protocol/validator.py:35-37 | every validator raises on `None`, with its own message |
| Validator.AcceptedValues | google_measurement_protocol/validator.py:27-33 | no parameter accepts `None`; a parameter whose rule needs a string accepts only strings; a numeric one accepts only numbers |
| Validator.AcceptedByRule | google_measurement_protocol/validator.py:13-20 | the same three facts for every shape of rule whose option list, if any, holds no `None` |
| Validator.MessageQuotesKey | google_measurement_protocol/validator.py:35-37 | the message quotes the parameter's key and then gives its title |
| Validator.IntegerExactly | google_measurement_protocol/validator.py:16-17 | `is_integer` holds exactly of non-negative `int`s and of both `bool`s; floats, negatives and strings are refused |
| Validator.CurrencyExactly | google_measurement_protocol/validator.py:19-20 | `is_currency` accepts what `is_integer` accepts plus exactly the non-negative floats; `is_integer` implies `is_currency` |
| Validator.BooleanExactly | google_measurement_protocol/validator.py:13-14 | `value in (0, 1)` holds exactly of `True`, `False`, 0, 1, 0.0 and 1.0; the strings "0" and "1" are refused |
| Validator.NumericFieldsRejectStrings | google_measurement_protocol/validator.py:16-20 | a parameter checked by `is_boolean`, `is_integer` or `is_currency` refuses every string, numeric-looking or not |
| Validator.AipExactly | google_measurement_protocol/validator.py:39-46 | `is_aip` accepts what `is_boolean` accepts plus "" and nothing else |
| Validator.SessionControlExactly | google_measurement_protocol/validator.py:80-86 | `is_sc` accepts exactly "start" and "end" |
| Validator.HitTypeExactly | google_measurement_protocol/validator.py:274-279 | `is_t` accepts exactly the eight hit-type strings |
| Validator.ProductActionExactly | google_measurement_protocol/validator.py:565-570 | `is_pa` accepts exactly the eight product-action strings |
| Validator.ChoiceExamples | google_measurement_protocol/validator.py:565-570 | "pageview" and "detail" are accepted; "page view" and "unknown_action" are refused |
| Validator.ChoiceFields | google_measurement_protocol/validator.py:39-46 | exactly `aip`, `sc`, `t` and `pa` check a tuple of options, and none of those tuples holds `None` |
| Validator.TextCap20 | google_measurement_protocol/validator.py:202-207 | exactly `sr`, `vp`, `de`, `sd`, `ul`, `fl` are plain text capped at 20, and each accepts exactly the strings of at most 20 characters |
| Validator.TextCap40 | google_measurement_protocol/validator.py:742-747 | exactly `xid` is plain text capped at 40, and it accepts exactly the strings of at most 40 characters |
| Validator.TextCap50 | google_measurement_protocol/validator.py:158-163 | exactly `cm`, `sn`, `sa` are plain text capped at 50, and each accepts exactly the strings of at most 50 characters |
| Validator.TextCap100 | google_measurement_protocol/validator.py:362-367 | exactly `cn`, `cs`, `ci`, `an`, `av` are plain text capped at 100, and each accepts exactly the strings of at most 100 characters |
| Validator.TextCap150 | google_measurement_protocol/validator.py:373-378 | exactly `aid`, `aiid`, `ec`, `utc`, `exd` and the `cd<n>` custom dimensions are plain text capped at 150, and each accepts exactly the strings of at most 150 characters |
| Validator.TextCap500 | google_measurement_protocol/validator.py:169-174 | exactly `ck`, `cc`, `ea`, `el`, `ti`, `ta`, `in`, `ic`, `iv`, `utv`, `utl` are plain text capped at 500, and each accepts exactly the strings of at most 500 characters |
| Validator.TextCap1500 | google_measurement_protocol/validator.py:340-345 | exactly `dt` is plain text capped at 1500, and it accepts exactly the strings of at most 1500 characters |
| Validator.TextCap2048 | google_measurement_protocol/validator.py:351-356 | exactly `cd` (screen name) and `st` are plain text capped at 2048, and each accepts exactly the strings of at most 2048 characters |
| Validator.IntegerFields | google_measurement_protocol/validator.py:52 | exactly `qt`, `ev`, `iq`, `pr<n>qt`, `pr<n>ps`, `pr<n>cm`, `cos`, `il<n>pi<m>ps`, `il<n>pi<m>cm`, `utt`, `plt`, `dns`, `pdt`, `rrt`, `tcp`, `srt` and `cm<n>` use `is_integer`, so each accepts exactly what `is_integer` accepts |
| Validator.CurrencyFields | google_measurement_protocol/validator.py:467 | exactly `tr`, `ts`, `tt`, `ip`, `pr<n>pr` and `il<n>pi<m>pr` use `is_currency`, so each accepts exactly what `is_currency` accepts |
| Validator.BooleanFields | google_measurement_protocol/validator.py:257 | exactly `je`, `ni` and `exf` use `is_boolean`, so each accepts exactly what `is_boolean` accepts |
| Validator.PatternCaps | google_measurement_protocol/validator.py:125-130 | `dr`, `dl` and `dp` refuse strings over 2048 characters and `dh` strings over 100, whatever the pattern says; `dr` and `dl` accept the same strings |
| Validator.TidExactly | google_measurement_protocol/validator.py:25-33 | `is_tid` accepts exactly the strings UA/YT/MO, dash, 4 to 10 digits, dash, 1 to 4 digits |
| Validator.TidDocExamples | google_measurement_protocol/validator.py:27-33 | "UA-1234-5" is accepted; "UA-XXXX-Y" and `None` are refused |
| Validator.CidExactly | google_measurement_protocol/validator.py:58-74 | `is_cid` accepts exactly 8-4-4-4-12 dashed hex of either case whose version digit (index 14) is 4 and whose variant digit (index 19) is 8, 9, a or b |
| Validator.CidDocExamples | google_measurement_protocol/validator.py:60-65 | "35009a79-1a05-49d7-b876-2b884d0f825b" is accepted; the same digits without dashes, and `None`, are refused |
| Validator.UipExactly | google_measurement_protocol/validator.py:100-107 | `is_uip` accepts every dotted quad of octets; anything else it accepts is accepted by the IPv6 pattern; it accepts only strings |
| Validator.UipFromNumbers | google_measurement_protocol/validator.py:94 | four numbers up to 255, written in decimal and joined by dots, are accepted |
| Validator.UipExample | google_measurement_protocol/validator.py:102 | "1.2.3.4" is accepted |
| Validator.UipLargeOctet | google_measurement_protocol/validator.py:94 | a string starting with the octet 256 passes only through the IPv6 pattern |
| Validator.DocumentPathExactly | google_measurement_protocol/validator.py:323-334 | `is_dp` accepts exactly "", "/", and strings of at most 2048 characters that start with `/` or `?` and go on with one or more non-whitespace characters |
| Validator.DocumentPathExamples | google_measurement_protocol/validator.py:329-333 | "/foo" is accepted and a lone "?" is refused |
| Validator.CurrencyCodeExactly | google_measurement_protocol/validator.py:530-535 | `is_cu` accepts exactly the strings in the ISO 4217 table, so "EUR" when the table holds it |
| Python.EqualsIsEquivalence | google_measurement_protocol/validator.py:14 | Python's `==` over the modelled values is reflexive, symmetric and transitive |
| Python.EqualsString | google_measurement_protocol/validator.py:46 | a value equals a string exactly when it is that string; no number equals a string |
| Python.InStrings | google_measurement_protocol/validator.py:86 | `in` on a tuple of strings is membership of a string value |
| Text.DigitRunAt | google_measurement_protocol/validator.py:25 | a run of digits ending at a non-digit or at the end is the run that greedy `\d+` consumes |
| Text.Split | google_measurement_protocol/validator.py:94 | the pieces of `s.split(sep)` hold no separator and join back to `s` |
| Text.SplitJoin | google_measurement_protocol/validator.py:94 | splitting undoes joining pieces that hold no separator |
| Text.DecimalString | google_measurement_protocol/validator.py:94 | the decimal rendering of `n` is digits worth `n`, one to three of them below 1000 |
| Patterns.TidCompose | google_measurement_protocol/validator.py:25 | prefix, dash, 4 to 10 digits, dash, 1 to 4 digits matches the tracking-ID pattern |
| Patterns.TidDecompose | google_measurement_protocol/validator.py:25 | every matching string splits into such a prefix, account and property |
| Patterns.TidExamples | google_measurement_protocol/validator.py:29-31 | the doctest IDs match as they should, and "UA-1234-5\n" matches only through `$` |
| Patterns.OctetPatternExactly | google_measurement_protocol/validator.py:94 | the three octet alternatives accept exactly one to three digits worth at most 255 |
| Patterns.Ipv4Compose | google_measurement_protocol/validator.py:94 | four octets joined by dots match the IPv4 pattern |
| Patterns.Ipv4Decompose | google_measurement_protocol/validator.py:94 | every matching string is four octets joined by dots |
| Patterns.Ipv4FromNumbers | google_measurement_protocol/validator.py:94 | four numbers up to 255 in decimal, dot-joined, match |
| Patterns.Ipv4Examples | google_measurement_protocol/validator.py:102 | "1.2.3.4" matches |
| Patterns.Ipv4RejectsLargeOctet | google_measurement_protocol/validator.py:94 | no string starting with the octet 256 matches |
| Patterns.PathShape | google_measurement_protocol/validator.py:323-327 | a non-empty matching path starts with `/` or `?` and holds no whitespace |
| Patterns.PathExtend | google_measurement_protocol/validator.py:323-327 | appending non-whitespace to a non-empty matching path keeps it matching |
| Patterns.PathExamples | google_measurement_protocol/validator.py:331 | "/foo" matches, "?" does not, and "\n" matches only through `$` |
| Patterns.CidCompose | google_measurement_protocol/validator.py:58 | five hex groups of lengths 8, 4, 4, 4, 12 joined by dashes match, with the version digit first in the third group and the variant digit first in the fourth |
| Patterns.TidTrailingNewline | google_measurement_protocol/validator.py:25 | as written, every accepted ID followed by a newline also passes, though the strict pattern refuses it |
| Patterns.Ipv4TrailingNewline | google_measurement_protocol/validator.py:94 | as written, every dotted quad followed by a newline also passes |
| Patterns.PathTrailingNewline | google_measurement_protocol/validator.py:326 | as written, every accepted path followed by a newline also passes |
| Uuid.ParseUuid | google_measurement_protocol/validator.py:67 | a parsed UUID is below 2^128 |
| Uuid.VersionDigits | google_measurement_protocol/validator.py:72 | for 32 hex digits, `version == 4` exactly when digit 12 is 4 and digit 16 is 8 to 11 |
| Uuid.VariantDigit | google_measurement_protocol/validator.py:72 | the variant is RFC 4122 (section 4.1.1 of RFC 4122) exactly when the digit holding bits 60-63 is 8 to 11 |
| Uuid.HyphenlessOfCid | google_measurement_protocol/validator.py:67 | dropping the dashes of a dashed-hex string leaves its 32 hex digits in order |
| Uuid.CidVersion | google_measurement_protocol/validator.py:66-74 | a dashed-hex string parses, and its version is 4 exactly when character 14 is 4 and character 19 is one of 8, 9, a, b, A, B |

## Left out

- The IPv6, URL and host regular expressions (validator.py:98, :115-123, :302-310) are not modelled. They use look-ahead, look-behind and back-references, so they are opaque predicates in `Oracles`. Only the type checks and length caps around them are proved.
- The ISO 4217 table (validator.py:5, :535) is not part of this model. It is the set `Oracles.iso4217Codes`.
- `gettext` translation of messages (validator.py:7) is left out; each message is its untranslated string.
- `Uuid.ParseUuid` covers only dashed hex. `uuid.UUID` also strips `urn:`, `uuid:` and braces, and `long(…, 16)` tolerates some extra forms. `is_cid` also demands the strict dashed-hex pattern, so none of these can change its verdict.
- `is_cid` catches any exception from `uuid.UUID`; the model gives the parse an `Option` result instead.
- Floats are modelled as `real`: NaN and infinities are not represented.
- Python 2's `int`/`long` distinction is not modelled: `Int` is unbounded. In Python 2, `isinstance(value, int)` is false for a `long`, so `is_integer` and `is_currency` refuse a value such as `10**20`, which `Validator.IntegerExactly` and `Validator.CurrencyExactly` accept.
- Python 2's `unicode` type is not modelled: `Str` holds a byte string. A `unicode` value fails every `isinstance(value, str)` test, so it is refused by the capped-text, `tid`, `uip`, `dr`, `dl`, `dh` and `dp` validators. Because it compares equal to the byte string with the same ASCII contents, it still passes `aip`, `sc`, `t`, `pa`, `cu` and `cid`.
- Validator.IsValid: uses the strict `tid`, IPv4 and path patterns. A value ending in one `\n`, which Python's `$` lets through (see "## Findings"), is refused by the model and accepted by the source.
- The indexed parameter families (`pr<n>pr`, `cd<n>`, `cm<n>`, …) are one field each, because the validators ignore the index.
- `setup.py` holds packaging metadata only.

## Findings

| source | as written | input that shows it | evidently intended | confidence | as-written member | corrected member |
|---|---|---|---|---|---|---|
| google_measurement_protocol/validator.py:25 | `tid_regex` ends in `$`, which in Python also matches before a final newline | "UA-1234-5\n" passes `is_tid` | a tracking ID and nothing after it | medium; not executed | Patterns.TidTrailingNewline | Validator.TidExactly |
| google_measurement_protocol/validator.py:94 | `ipv4_regex` ends in `$` | "1.2.3.4\n" passes `is_uip` | a dotted quad and nothing after it | medium; not executed | Patterns.Ipv4TrailingNewline | Validator.UipExactly |
| google_measurement_protocol/validator.py:323-327 | `path_regex` ends in `$` | "\n" and "/foo\n" pass `is_dp` | a path without whitespace | medium; not executed | Patterns.PathTrailingNewline | Validator.DocumentPathExactly |

The registry (`Validator.IsValid`) uses the strict patterns. `Patterns.MatchDollar` states what `re.match` does with `$`. For `cid` the quirk changes nothing: a trailing newline makes the string 33 characters long without dashes, which `uuid.UUID` refuses.
