/** The field-validator registry of the Measurement Protocol client: one
    predicate per hit parameter (`is_<key>`), each paired with a validator
    (`validate_<key>`) that raises `ValidationError` when the predicate
    fails. Every predicate is one of a few shapes, a `Rule`; the table
    `RuleOf` says which shape, with which bound or option list, each
    parameter uses. */
module Validator {
  import opened Python
  import opened Text
  import opened Patterns
  import Uuid
  import Wrappers

  /** The exception `validate_<key>` raises; it carries its message. */
  datatype ValidationError = ValidationError(message: string)

  /** What a `validate_<key>` call does: return normally, or raise. */
  datatype Outcome = Pass | Fail(error: ValidationError)

  /** The pieces the registry consults but whose insides are not modelled:
      the IPv6, URL and host regular expressions, and the ISO 4217 table of
      currency codes. Every property proved below holds for every choice. */
  datatype Oracles = Oracles(
    ipv6Regex: string -> bool,
    urlRegex: string -> bool,
    hostRegex: string -> bool,
    iso4217Codes: set<string>)

  // ---------------------------------------------------------------------
  // Shared helpers

  /** `value in (0, 1)`: equal, as Python compares, to 0 or to 1. */
  predicate IsBoolean(v: Value) {
    Python.In(v, [Int(0), Int(1)])
  }

  /** `isinstance(value, int) and 0 <= value`. */
  predicate IsInteger(v: Value) {
    IsInstanceInt(v) && NonNegative(v)
  }

  /** `isinstance(value, (int, float)) and 0 <= value`. */
  predicate IsCurrency(v: Value) {
    IsInstanceIntOrFloat(v) && NonNegative(v)
  }

  /** `is_cid`: the value parses as a UUID, matches the dashed-hex shape, and
      has version 4. A value the UUID parser refuses (`None`, a number, a
      string of the wrong shape) makes the predicate false. */
  predicate IsCid(v: Value) {
    v.Str? &&
    match Uuid.ParseUuid(v.s)
    case None => false
    case Some(u) => CidPattern(v.s) && Uuid.VersionOf(u) == Wrappers.Some(4)
  }

  /** `value in iso4217.codes`. */
  predicate IsCurrencyCode(o: Oracles, v: Value) {
    exists c :: c in o.iso4217Codes && Equals(v, Str(c))
  }

  // ---------------------------------------------------------------------
  // Rules and the registry

  /** The shapes the `is_<key>` predicates take. */
  datatype Rule =
    | BooleanLike                    // is_boolean
    | Integer                        // is_integer
    | Currency                       // is_currency
    | Choice(options: seq<Value>)    // value in (...)
    | BoundedText(maxLen: nat)       // a str no longer than maxLen
    | TrackingId                     // tid_regex
    | ClientId                       // is_cid
    | IpAddress                      // ipv4_regex or ipv6_regex
    | Url(maxLen: nat)               // url_regex, capped
    | Host(maxLen: nat)              // host_regex, capped
    | DocumentPath(maxLen: nat)      // path_regex, capped
    | CurrencyCode                   // iso4217.codes

  /** The rules whose predicate starts with `isinstance(value, str)`. */
  predicate IsStringRule(r: Rule) {
    r.BoundedText? || r.TrackingId? || r.ClientId? || r.IpAddress? ||
    r.Url? || r.Host? || r.DocumentPath?
  }

  /** The rules that accept numbers only. */
  predicate IsNumericRule(r: Rule) {
    r.BooleanLike? || r.Integer? || r.Currency?
  }

  /** Whether `v` satisfies rule `r`. */
  predicate Accepts(o: Oracles, r: Rule, v: Value) {
    match r
    case BooleanLike => IsBoolean(v)
    case Integer => IsInteger(v)
    case Currency => IsCurrency(v)
    case Choice(options) => Python.In(v, options)
    case BoundedText(n) => v.Str? && |v.s| <= n
    case TrackingId => v.Str? && TidPattern(v.s)
    case ClientId => IsCid(v)
    case IpAddress => v.Str? && (Ipv4Pattern(v.s) || o.ipv6Regex(v.s))
    case Url(n) => v.Str? && o.urlRegex(v.s) && |v.s| <= n
    case Host(n) => v.Str? && o.hostRegex(v.s) && |v.s| <= n
    case DocumentPath(n) => v.Str? && PathPattern(v.s) && |v.s| <= n
    case CurrencyCode => IsCurrencyCode(o, v)
  }

  /** The hit parameters that have a validator. `PrPr` stands for the
      `pr<n>pr` family, `IlPiPs` for `il<n>pi<m>ps`, and so on;
      `CustomDimension` and `CustomMetric` are `cd<n>` and `cm<n>`. */
  datatype Field =
    | Tid | Aip | Qt | Cid | Sc | Uip | Dr | Cn | Cs | Cm | Ck | Cc | Ci
    | Sr | Vp | De | Sd | Ul | Je | Fl | T | Ni | Dl | Dh | Dp | Dt | Cd
    | An | Aid | Av | Aiid | Ec | Ea | El | Ev | Ti | Ta | Tr | Ts | Tt
    | In | Ip | Iq | Ic | Iv | Cu | PrPr | PrQt | PrPs | PrCm | Pa | Cos
    | IlPiPs | IlPiPr | IlPiCm | Sn | Sa | St | Utc | Utv | Utt | Utl
    | Plt | Dns | Pdt | Rrt | Tcp | Srt | Exd | Exf
    | CustomDimension | CustomMetric | Xid

  const HitTypes: seq<Value> := [Str("pageview"), Str("screenview"), Str("event"),
    Str("transaction"), Str("item"), Str("social"), Str("exception"), Str("timing")]

  const ProductActions: seq<Value> := [Str("detail"), Str("click"), Str("add"),
    Str("remove"), Str("checkout"), Str("checkout_option"), Str("purchase"), Str("refund")]

  /** Which rule `is_<key>` applies. */
  function RuleOf(f: Field): Rule {
    match f
    case Tid => TrackingId
    case Aip => Choice([Str(""), Int(0), Int(1)])
    case Cid => ClientId
    case Sc => Choice([Str("start"), Str("end")])
    case Uip => IpAddress
    case T => Choice(HitTypes)
    case Pa => Choice(ProductActions)
    case Dr | Dl => Url(2048)
    case Dh => Host(100)
    case Dp => DocumentPath(2048)
    case Cu => CurrencyCode
    case Je | Ni | Exf => BooleanLike
    case Qt | Ev | Iq | PrQt | PrPs | PrCm | Cos | IlPiPs | IlPiCm | Utt | Plt
      | Dns | Pdt | Rrt | Tcp | Srt | CustomMetric => Integer
    case Tr | Ts | Tt | Ip | PrPr | IlPiPr => Currency
    case Sr | Vp | De | Sd | Ul | Fl => BoundedText(20)
    case Xid => BoundedText(40)
    case Cm | Sn | Sa => BoundedText(50)
    case Cn | Cs | Ci | An | Av => BoundedText(100)
    case Aid | Aiid | Ec | Utc | Exd | CustomDimension => BoundedText(150)
    case Ck | Cc | Ea | El | Ti | Ta | In | Ic | Iv | Utv | Utl => BoundedText(500)
    case Dt => BoundedText(1500)
    case Cd | St => BoundedText(2048)
  }

  /** `is_<key>(value)`. */
  predicate IsValid(o: Oracles, f: Field, v: Value) {
    Accepts(o, RuleOf(f), v)
  }

  /** The parameter name as the error message quotes it. */
  function Key(f: Field): string {
    match f
    case Tid => "tid" case Aip => "aip" case Qt => "qt" case Cid => "cid"
    case Sc => "sc" case Uip => "uip" case Dr => "dr" case Cn => "cn"
    case Cs => "cs" case Cm => "cm" case Ck => "ck" case Cc => "cc"
    case Ci => "ci" case Sr => "sr" case Vp => "vp" case De => "de"
    case Sd => "sd" case Ul => "ul" case Je => "je" case Fl => "fl"
    case T => "t" case Ni => "ni" case Dl => "dl" case Dh => "dh"
    case Dp => "dp" case Dt => "dt" case Cd => "cd" case An => "an"
    case Aid => "aid" case Av => "av" case Aiid => "aiid" case Ec => "ec"
    case Ea => "ea" case El => "el" case Ev => "ev" case Ti => "ti"
    case Ta => "ta" case Tr => "tr" case Ts => "ts" case Tt => "tt"
    case In => "in" case Ip => "ip" case Iq => "iq" case Ic => "ic"
    case Iv => "iv" case Cu => "cu"
    case PrPr => "pr[\\d+]pr" case PrQt => "pr[\\d+]qt"
    case PrPs => "pr[\\d+]ps" case PrCm => "pr[\\d+]cm[index]"
    case Pa => "pa" case Cos => "cos"
    case IlPiPs => "il[\\d+]pi[\\d+]ps" case IlPiPr => "il[\\d+]pi[\\d+]pr"
    case IlPiCm => "il[\\d+]pi[\\d+]cm"
    case Sn => "sn" case Sa => "sa" case St => "st" case Utc => "utc"
    case Utv => "utv" case Utt => "utt" case Utl => "utl" case Plt => "plt"
    case Dns => "dns" case Pdt => "pdt" case Rrt => "rrt" case Tcp => "tcp"
    case Srt => "srt" case Exd => "exd" case Exf => "exf"
    case CustomDimension => "cd[1-9][0-9]*" case CustomMetric => "cm[1-9][0-9]*"
    case Xid => "xid"
  }

  /** The human-readable parameter name the error message gives. */
  function Title(f: Field): string {
    match f
    case Tid => "Tracking ID / Web Property ID"
    case Aip => "Anonymize IP"
    case Qt => "Queue Time"
    case Cid => "Client ID"
    case Sc => "Session Control"
    case Uip => "IP Override"
    case Dr => "Document Referrer"
    case Cn => "Campaign Name"
    case Cs => "Campaign Source"
    case Cm => "Campaign Medium"
    case Ck => "Campaign Keyword"
    case Cc => "Campaign Content"
    case Ci => "Campaign ID"
    case Sr => "Screen Resolution"
    case Vp => "Viewport size"
    case De => "Document Encoding"
    case Sd => "Screen Colors"
    case Ul => "User Language"
    case Je => "Java Enabled"
    case Fl => "Flash Version"
    case T => "Hit type"
    case Ni => "Non-Interaction Hit"
    case Dl => "Document location URL"
    case Dh => "Document Host Name"
    case Dp => "Document Path"
    case Dt => "Document Title"
    case Cd => "Screen Name"
    case An => "Application Name"
    case Aid => "Application ID"
    case Av => "Application Version"
    case Aiid => "Application Installer ID"
    case Ec => "Event Category"
    case Ea => "Event Action"
    case El => "Event Label"
    case Ev => "Event Value"
    case Ti => "Transaction ID"
    case Ta => "Transaction Affiliation"
    case Tr => "Transaction Revenue"
    case Ts => "Transaction Shipping"
    case Tt => "Transaction Tax"
    case In => "Item Name"
    case Ip => "Item Price"
    case Iq => "Item Quantity"
    case Ic => "Item Code"
    case Iv => "Item Category"
    case Cu => "Currency Code"
    case PrPr => "Product Price"
    case PrQt => "Product Quantity"
    case PrPs => "Product Position"
    case PrCm => "Product Custom Metric"
    case Pa => "Product Action"
    case Cos => "Checkout Step"
    case IlPiPs => "Product Impression Position"
    case IlPiPr => "Product Impression Price"
    case IlPiCm => "Product Impression Custom Metric"
    case Sn => "Social Network"
    case Sa => "Social Action"
    case St => "Social Action Target"
    case Utc => "User timing category"
    case Utv => "User timing variable name"
    case Utt => "User timing time"
    case Utl => "User timing label"
    case Plt => "Page Load Time"
    case Dns => "DNS Time"
    case Pdt => "Page Download Time"
    case Rrt => "Redirect Response Time"
    case Tcp => "TCP Connect Time"
    case Srt => "Server Response Time"
    case Exd => "Exception Description"
    case Exf => "Is Exception Fatal?"
    case CustomDimension => "Custom Dimension"
    case CustomMetric => "Custom Metric"
    case Xid => "Experiment ID"
  }

  /** The (untranslated) message of the error `validate_<key>` raises. */
  function Message(f: Field): string {
    "Enter a valid '" + Key(f) + "' (" + Title(f) + ")."
  }

  /** `validate_<key>(value)`: raises exactly when `is_<key>(value)` is false,
      with the message that names the parameter; otherwise does nothing. */
  function Validate(o: Oracles, f: Field, v: Value): (r: Outcome)
    ensures r.Pass? <==> IsValid(o, f, v)
    ensures r.Fail? ==> r.error.message == Message(f)
  {
    if IsValid(o, f, v) then Pass else Fail(ValidationError(Message(f)))
  }

  // ---------------------------------------------------------------------
  // Properties of the registry

  /** No parameter accepts `None`; a parameter whose rule wants a string
      accepts nothing else, and one whose rule is numeric accepts only
      numbers. */
  lemma AcceptedValues(o: Oracles, f: Field, v: Value)
    ensures IsValid(o, f, v) ==> !v.None?
    ensures IsValid(o, f, v) && IsStringRule(RuleOf(f)) ==> v.Str?
    ensures IsValid(o, f, v) && IsNumericRule(RuleOf(f)) ==> IsNumber(v)
  {
    ChoiceFields(f);
    AcceptedByRule(o, RuleOf(f), v);
  }

  /** The shapes of rule that accept no `None`: all but a list of options
      that holds `None`. */
  lemma AcceptedByRule(o: Oracles, r: Rule, v: Value)
    requires r.Choice? ==> forall i :: 0 <= i < |r.options| ==> !r.options[i].None?
    ensures Accepts(o, r, v) ==> !v.None?
    ensures Accepts(o, r, v) && IsStringRule(r) ==> v.Str?
    ensures Accepts(o, r, v) && IsNumericRule(r) ==> IsNumber(v)
  {
  }

  /** The parameters checked against a list of options, none of them `None`. */
  lemma ChoiceFields(f: Field)
    ensures RuleOf(f).Choice? <==> f in {Aip, Sc, T, Pa}
    ensures RuleOf(f).Choice? ==> forall i :: 0 <= i < |RuleOf(f).options| ==> !RuleOf(f).options[i].None?
  {
    match f
    case Aip | Sc | T | Pa =>
    case _ =>
  }

  /** Every validator raises on `None`, with its own message. */
  lemma ValidateNone(o: Oracles, f: Field)
    ensures Validate(o, f, None) == Fail(ValidationError(Message(f)))
  {
    AcceptedValues(o, f, None);
  }

  /** `is_integer` holds exactly of non-negative `int`s and of both `bool`s. */
  lemma IntegerExactly(v: Value)
    ensures IsInteger(v) <==> (v.Int? && 0 <= v.i) || v.Bool?
  {
  }

  /** `is_currency` adds the non-negative `float`s to what `is_integer` accepts,
      and nothing else. */
  lemma CurrencyExactly(v: Value)
    ensures IsCurrency(v) <==> IsInteger(v) || (v.Float? && 0.0 <= v.f)
    ensures IsInteger(v) ==> IsCurrency(v)
    ensures IsCurrency(v) && !IsInteger(v) <==> v.Float? && 0.0 <= v.f
  {
  }

  /** `value in (0, 1)` holds of the numbers equal to 0 or 1 (`True`, `False`,
      `0`, `1`, `0.0`, `1.0`) and of nothing else; in particular not of the
      strings "0" and "1". */
  lemma BooleanExactly(v: Value)
    ensures IsBoolean(v) <==>
      v.Bool? || (v.Int? && (v.i == 0 || v.i == 1)) || (v.Float? && (v.f == 0.0 || v.f == 1.0))
    ensures !IsBoolean(Str("0")) && !IsBoolean(Str("1"))
  {
    if IsNumber(v) && (NumericValue(v) == 0.0 || NumericValue(v) == 1.0) {
      var w := if NumericValue(v) == 0.0 then Int(0) else Int(1);
      assert Equals(v, w);
      assert [Int(0), Int(1)][if NumericValue(v) == 0.0 then 0 else 1] == w;
    }
  }

  /** `is_aip` accepts what `is_boolean` accepts, plus the empty string. */
  lemma AipExactly(o: Oracles, v: Value)
    ensures IsValid(o, Aip, v) <==> IsBoolean(v) || v == Str("")
  {
    var t := [Str(""), Int(0), Int(1)];
    if v == Str("") {
      assert Equals(v, t[0]);
    }
    if IsBoolean(v) {
      var i :| 0 <= i < 2 && Equals(v, [Int(0), Int(1)][i]);
      assert Equals(v, t[i + 1]);
    }
    if Python.In(v, t) {
      var i :| 0 <= i < 3 && Equals(v, t[i]);
      if i > 0 {
        assert Equals(v, [Int(0), Int(1)][i - 1]);
      } else {
        EqualsString(v, "");
      }
    }
  }

  /** `is_sc` accepts exactly "start" and "end". */
  lemma SessionControlExactly(o: Oracles, v: Value)
    ensures IsValid(o, Sc, v) <==> v == Str("start") || v == Str("end")
  {
    InStrings(v, [Str("start"), Str("end")]);
  }

  /** A parameter whose rule is a list of options accepts what equals one
      of them. */
  lemma ChoiceBranch(o: Oracles, f: Field, v: Value)
    requires RuleOf(f).Choice?
    ensures IsValid(o, f, v) <==> exists i :: 0 <= i < |RuleOf(f).options| && Equals(v, RuleOf(f).options[i])
  {
  }

  /** `is_t` accepts exactly the eight hit-type names. */
  lemma HitTypeExactly(o: Oracles, v: Value)
    ensures IsValid(o, T, v) <==> v.Str? && v in HitTypes
  {
    ChoiceBranch(o, T, v);
    InStrings(v, HitTypes);
  }

  /** `is_pa` accepts exactly the eight product-action names. */
  lemma ProductActionExactly(o: Oracles, v: Value)
    ensures IsValid(o, Pa, v) <==> v.Str? && v in ProductActions
  {
    ChoiceBranch(o, Pa, v);
    InStrings(v, ProductActions);
  }

  /** The examples of `is_t`'s and `is_pa`'s documentation, and names
      outside the lists. */
  lemma ChoiceExamples(o: Oracles)
    ensures IsValid(o, T, Str("pageview")) && !IsValid(o, T, Str("page view"))
    ensures IsValid(o, Pa, Str("detail")) && !IsValid(o, Pa, Str("unknown_action"))
  {
    HitTypeExactly(o, Str("pageview"));
    HitTypeExactly(o, Str("page view"));
    ProductActionExactly(o, Str("detail"));
    ProductActionExactly(o, Str("unknown_action"));
    assert HitTypes[0] == Str("pageview");
    assert ProductActions[0] == Str("detail");
  }

  /** A parameter whose rule is numeric rejects every string, numeric-looking
      or not. */
  lemma NumericFieldsRejectStrings(o: Oracles, f: Field, s: string)
    requires IsNumericRule(RuleOf(f))
    ensures !IsValid(o, f, Str(s))
  {
  }

  /** What a parameter's predicate says, given the shape of its rule. */
  lemma RuleMeaning(o: Oracles, f: Field, v: Value)
    ensures RuleOf(f).BoundedText? ==> (IsValid(o, f, v) <==> v.Str? && |v.s| <= RuleOf(f).maxLen)
    ensures RuleOf(f).Integer? ==> (IsValid(o, f, v) <==> IsInteger(v))
    ensures RuleOf(f).Currency? ==> (IsValid(o, f, v) <==> IsCurrency(v))
    ensures RuleOf(f).BooleanLike? ==> (IsValid(o, f, v) <==> IsBoolean(v))
  {
  }

  /** The plain text parameters capped at 20 characters, and what they accept. */
  lemma TextCap20(o: Oracles, f: Field, v: Value)
    ensures RuleOf(f) == BoundedText(20) <==> f in {Sr, Vp, De, Sd, Ul, Fl}
    ensures f in {Sr, Vp, De, Sd, Ul, Fl} ==> (IsValid(o, f, v) <==> v.Str? && |v.s| <= 20)
  {
  }

  /** The plain text parameters capped at 40 characters, and what they accept. */
  lemma TextCap40(o: Oracles, f: Field, v: Value)
    ensures RuleOf(f) == BoundedText(40) <==> f in {Xid}
    ensures f in {Xid} ==> (IsValid(o, f, v) <==> v.Str? && |v.s| <= 40)
  {
  }

  /** The plain text parameters capped at 50 characters, and what they accept. */
  lemma TextCap50(o: Oracles, f: Field, v: Value)
    ensures RuleOf(f) == BoundedText(50) <==> f in {Cm, Sn, Sa}
    ensures f in {Cm, Sn, Sa} ==> (IsValid(o, f, v) <==> v.Str? && |v.s| <= 50)
  {
  }

  /** The plain text parameters capped at 100 characters, and what they accept. */
  lemma TextCap100(o: Oracles, f: Field, v: Value)
    ensures RuleOf(f) == BoundedText(100) <==> f in {Cn, Cs, Ci, An, Av}
    ensures f in {Cn, Cs, Ci, An, Av} ==> (IsValid(o, f, v) <==> v.Str? && |v.s| <= 100)
  {
  }

  /** The plain text parameters capped at 150 characters, and what they accept. */
  lemma TextCap150(o: Oracles, f: Field, v: Value)
    ensures RuleOf(f) == BoundedText(150) <==> f in {Aid, Aiid, Ec, Utc, Exd, CustomDimension}
    ensures f in {Aid, Aiid, Ec, Utc, Exd, CustomDimension} ==> (IsValid(o, f, v) <==> v.Str? && |v.s| <= 150)
  {
  }

  /** The plain text parameters capped at 500 characters, and what they accept. */
  lemma TextCap500(o: Oracles, f: Field, v: Value)
    ensures RuleOf(f) == BoundedText(500) <==> f in {Ck, Cc, Ea, El, Ti, Ta, In, Ic, Iv, Utv, Utl}
    ensures f in {Ck, Cc, Ea, El, Ti, Ta, In, Ic, Iv, Utv, Utl} ==> (IsValid(o, f, v) <==> v.Str? && |v.s| <= 500)
  {
  }

  /** The plain text parameters capped at 1500 characters, and what they accept. */
  lemma TextCap1500(o: Oracles, f: Field, v: Value)
    ensures RuleOf(f) == BoundedText(1500) <==> f in {Dt}
    ensures f in {Dt} ==> (IsValid(o, f, v) <==> v.Str? && |v.s| <= 1500)
  {
  }

  /** The plain text parameters capped at 2048 characters, and what they accept. */
  lemma TextCap2048(o: Oracles, f: Field, v: Value)
    ensures RuleOf(f) == BoundedText(2048) <==> f in {Cd, St}
    ensures f in {Cd, St} ==> (IsValid(o, f, v) <==> v.Str? && |v.s| <= 2048)
  {
  }

  /** The parameters checked by `is_integer`, and what they accept. */
  lemma IntegerFields(o: Oracles, f: Field, v: Value)
    ensures RuleOf(f) == Integer <==>
      f in {Qt, Ev, Iq, PrQt, PrPs, PrCm, Cos, IlPiPs, IlPiCm, Utt, Plt, Dns, Pdt, Rrt, Tcp, Srt, CustomMetric}
    ensures f in {Qt, Ev, Iq, PrQt, PrPs, PrCm, Cos, IlPiPs, IlPiCm, Utt, Plt, Dns, Pdt, Rrt, Tcp, Srt, CustomMetric} ==> (IsValid(o, f, v) <==> IsInteger(v))
  {
  }

  /** The parameters checked by `is_currency`, and what they accept. */
  lemma CurrencyFields(o: Oracles, f: Field, v: Value)
    ensures RuleOf(f) == Currency <==> f in {Tr, Ts, Tt, Ip, PrPr, IlPiPr}
    ensures f in {Tr, Ts, Tt, Ip, PrPr, IlPiPr} ==> (IsValid(o, f, v) <==> IsCurrency(v))
  {
  }

  /** The parameters checked by `is_boolean`, and what they accept. */
  lemma BooleanFields(o: Oracles, f: Field, v: Value)
    ensures RuleOf(f) == BooleanLike <==> f in {Je, Ni, Exf}
    ensures f in {Je, Ni, Exf} ==> (IsValid(o, f, v) <==> IsBoolean(v))
  {
  }

  /** The pattern parameters reject an over-long string whatever their
      pattern says. */
  lemma PatternCaps(o: Oracles, s: string)
    ensures |s| > 2048 ==> !IsValid(o, Dr, Str(s)) && !IsValid(o, Dl, Str(s)) && !IsValid(o, Dp, Str(s))
    ensures |s| > 100 ==> !IsValid(o, Dh, Str(s))
    ensures IsValid(o, Dr, Str(s)) <==> o.urlRegex(s) && |s| <= 2048
    ensures IsValid(o, Dl, Str(s)) <==> IsValid(o, Dr, Str(s))
    ensures IsValid(o, Dh, Str(s)) <==> o.hostRegex(s) && |s| <= 100
  {
    assert RuleOf(Dr) == RuleOf(Dl) == Url(2048);
    assert RuleOf(Dp) == DocumentPath(2048);
    assert RuleOf(Dh) == Host(100);
  }

  /** The parts of a tracking ID: a product prefix, an account number of 4 to
      10 digits and a property number of 1 to 4 digits. */
  predicate TidParts(p: string, account: string, property: string) {
    IsTidPrefix(p) &&
    4 <= |account| <= 10 && AllDigits(account) &&
    1 <= |property| <= 4 && AllDigits(property)
  }

  /** `is_tid` accepts exactly the strings `<prefix>-<account>-<property>`. */
  lemma TidExactly(o: Oracles, v: Value)
    ensures IsValid(o, Tid, v) <==>
      v.Str? && exists p, a, q :: TidParts(p, a, q) && v.s == p + "-" + a + "-" + q
  {
    if IsValid(o, Tid, v) {
      var p, a, q := TidDecompose(v.s);
      assert TidParts(p, a, q);
    }
    if v.Str? && exists p, a, q :: TidParts(p, a, q) && v.s == p + "-" + a + "-" + q {
      var p, a, q :| TidParts(p, a, q) && v.s == p + "-" + a + "-" + q;
      TidCompose(p, a, q);
    }
  }

  /** The examples of `is_tid`'s documentation. */
  lemma TidDocExamples(o: Oracles)
    ensures IsValid(o, Tid, Str("UA-1234-5"))
    ensures !IsValid(o, Tid, Str("UA-XXXX-Y"))
    ensures !IsValid(o, Tid, None)
  {
    TidExamples();
  }

  /** `is_cid` accepts exactly the dashed-hex strings whose version digit is
      4 and whose variant digit is 8, 9, a or b. */
  lemma CidExactly(o: Oracles, v: Value)
    ensures IsValid(o, Cid, v) <==>
      v.Str? && CidPattern(v.s) && v.s[14] == '4' && v.s[19] in "89abAB"
  {
    if v.Str? && CidPattern(v.s) {
      Uuid.CidVersion(v.s);
    }
  }

  /** The examples of `is_cid`'s documentation: the same hex digits are
      accepted with dashes and refused without. */
  lemma CidDocExamples(o: Oracles)
    ensures IsValid(o, Cid, Str("35009a79" + "-" + "1a05" + "-" + "49d7" + "-" + "b876" + "-" + "2b884d0f825b"))
    ensures !IsValid(o, Cid, Str("35009a791a0549d7b8762b884d0f825b"))
    ensures !IsValid(o, Cid, None)
  {
    assert AllHexDigits("35009a79") && AllHexDigits("1a05") && AllHexDigits("49d7");
    assert AllHexDigits("b876") && AllHexDigits("2b884d0f825b");
    CidCompose("35009a79", "1a05", "49d7", "b876", "2b884d0f825b");
    CidExactly(o, Str("35009a79" + "-" + "1a05" + "-" + "49d7" + "-" + "b876" + "-" + "2b884d0f825b"));
    CidExactly(o, Str("35009a791a0549d7b8762b884d0f825b"));
  }

  /** `is_uip` accepts every dotted quad of octets and, besides, whatever the
      IPv6 pattern accepts; nothing else, and no non-string. */
  lemma UipExactly(o: Oracles, v: Value)
    ensures IsValid(o, Uip, v) ==> v.Str?
    ensures IsValid(o, Uip, v) && !o.ipv6Regex(v.s) ==>
      exists a, b, c, d :: Octet(a) && Octet(b) && Octet(c) && Octet(d) && v.s == DottedQuad(a, b, c, d)
    ensures v.Str? && (exists a, b, c, d :: Octet(a) && Octet(b) && Octet(c) && Octet(d) && v.s == DottedQuad(a, b, c, d)) ==>
      IsValid(o, Uip, v)
  {
    if IsValid(o, Uip, v) && !o.ipv6Regex(v.s) {
      var a, b, c, d := Ipv4Decompose(v.s);
    }
    if v.Str? && exists a, b, c, d :: Octet(a) && Octet(b) && Octet(c) && Octet(d) && v.s == DottedQuad(a, b, c, d) {
      var a, b, c, d :| Octet(a) && Octet(b) && Octet(c) && Octet(d) && v.s == DottedQuad(a, b, c, d);
      Ipv4Compose(a, b, c, d);
    }
  }

  /** Any four numbers up to 255, written in decimal and joined by dots, make
      an acceptable `uip`. */
  lemma UipFromNumbers(o: Oracles, a: nat, b: nat, c: nat, d: nat)
    requires a <= 255 && b <= 255 && c <= 255 && d <= 255
    ensures IsValid(o, Uip, Str(DottedQuad(DecimalString(a), DecimalString(b), DecimalString(c), DecimalString(d))))
  {
    var s := DottedQuad(DecimalString(a), DecimalString(b), DecimalString(c), DecimalString(d));
    Ipv4FromNumbers(a, b, c, d);
    UipBranches(o, s);
  }

  /** `is_uip` on a string: the IPv4 pattern or the IPv6 one. */
  lemma UipBranches(o: Oracles, s: string)
    ensures IsValid(o, Uip, Str(s)) <==> Ipv4Pattern(s) || o.ipv6Regex(s)
  {
  }

  /** "1.2.3.4", the example of `is_uip`'s documentation, passes. */
  lemma UipExample(o: Oracles)
    ensures IsValid(o, Uip, Str("1.2.3.4"))
  {
    Ipv4Examples();
    UipBranches(o, "1.2.3.4");
  }

  /** The IPv4 branch refuses a first octet of 256, so such a string passes
      only if the IPv6 pattern accepts it. */
  lemma UipLargeOctet(o: Oracles, rest: string)
    ensures IsValid(o, Uip, Str("256." + rest)) <==> o.ipv6Regex("256." + rest)
  {
    Ipv4RejectsLargeOctet(rest);
    UipBranches(o, "256." + rest);
  }

  /** `is_dp` on a string: the path pattern and the cap. */
  lemma DocumentPathBranch(o: Oracles, s: string)
    ensures IsValid(o, Dp, Str(s)) <==> PathPattern(s) && |s| <= 2048
  {
  }

  /** `is_dp` accepts exactly the empty string, "/", and strings of at most
      2048 characters that start with `/` or `?` and continue with one or
      more non-whitespace characters. */
  lemma DocumentPathExactly(o: Oracles, s: string)
    ensures IsValid(o, Dp, Str(s)) <==>
      |s| <= 2048 &&
      (s == "" || s == "/" ||
       (|s| >= 2 && (s[0] == '/' || s[0] == '?') && forall i :: 0 <= i < |s| ==> !IsSpace(s[i])))
  {
    DocumentPathBranch(o, s);
    if PathPattern(s) && s != "" {
      PathShape(s);
    }
  }

  /** The example of `is_dp`'s documentation, and a lone `?`. */
  lemma DocumentPathExamples(o: Oracles)
    ensures IsValid(o, Dp, Str("/foo")) && !IsValid(o, Dp, Str("?"))
  {
    PathExamples();
    DocumentPathBranch(o, "/foo");
    DocumentPathBranch(o, "?");
  }

  /** `is_cu` accepts exactly the strings in the ISO 4217 table. */
  lemma CurrencyCodeExactly(o: Oracles, v: Value)
    ensures IsValid(o, Cu, v) <==> v.Str? && v.s in o.iso4217Codes
    ensures "EUR" in o.iso4217Codes ==> IsValid(o, Cu, Str("EUR"))
  {
    if IsValid(o, Cu, v) {
      var c :| c in o.iso4217Codes && Equals(v, Str(c));
      EqualsString(v, c);
    }
    if v.Str? && v.s in o.iso4217Codes {
      assert Equals(v, Str(v.s));
    }
    if "EUR" in o.iso4217Codes {
      assert Equals(Str("EUR"), Str("EUR"));
    }
  }

  /** The layout of a message built from a key and a title. */
  lemma MessageLayout(k: string, t: string)
    ensures ("Enter a valid '" + k + "' (" + t + ").")[..15] == "Enter a valid '"
    ensures ("Enter a valid '" + k + "' (" + t + ").")[15..15 + |k|] == k
    ensures ("Enter a valid '" + k + "' (" + t + ").")[15 + |k|..18 + |k|] == "' ("
    ensures ("Enter a valid '" + k + "' (" + t + ").")[18 + |k|..18 + |k| + |t|] == t
    ensures ("Enter a valid '" + k + "' (" + t + ").")[18 + |k| + |t|..] == ")."
  {
  }

  /** The error message quotes the parameter's key and then gives its title. */
  lemma MessageQuotesKey(f: Field)
    ensures Message(f)[15..15 + |Key(f)|] == Key(f)
    ensures Message(f)[18 + |Key(f)|..18 + |Key(f)| + |Title(f)|] == Title(f)
  {
    MessageLayout(Key(f), Title(f));
  }
}
