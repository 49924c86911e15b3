/** The request validation `store` and `update` run before touching any
    state: Laravel's rule strings for the four resource fields, and the
    subset of Laravel's rule semantics they exercise. */
module Validation {
  import opened Text

  datatype Field = Name | Type | Description | Image

  /** One request input as the validator sees it. `Missing` is a key the
      request does not carry; `Null` is a key sent as null; `Str` is a string.
      `Other` is any other JSON value (a number, a boolean, an object or an
      array); `emptyArray` marks `[]`, which `required` counts as empty. A
      `File` is an upload: the extension guessed from its content and its
      size in bytes. */
  datatype Value = Missing | Null | Str(s: string) | Other(emptyArray: bool) | File(ext: string, bytes: nat)

  /** The inputs of a create or update request. */
  datatype Submission = Submission(name: Value, kind: Value, description: Value, image: Value)

  datatype Rule = Required | Nullable | IsString | Max(limit: nat) | IsImage | Mimes(exts: set<string>)

  /** A rule list per field, as in the array passed to `$request->validate`. */
  datatype RuleSet = RuleSet(name: seq<Rule>, kind: seq<Rule>, description: seq<Rule>, image: seq<Rule>)

  const AllFields: set<Field> := {Name, Type, Description, Image}

  /** Extensions Laravel's `image` rule admits. */
  const ImageExtensions: set<string> := {"jpg", "jpeg", "png", "gif", "bmp", "svg", "webp"}

  /** `mimes:jpeg,png,jpg,gif` */
  const PictureExtensions: set<string> := {"jpeg", "png", "jpg", "gif"}

  /** `max:255` on the text fields, `max:2048` (kilobytes) on the image. */
  const MaxTextLength: nat := 255
  const MaxImageKilobytes: nat := 2048

  /** The rules `store` validates with. */
  const StoreRules: RuleSet := RuleSet(
    [Required, IsString, Max(MaxTextLength)],
    [Required, IsString, Max(MaxTextLength)],
    [Nullable, IsString],
    [Nullable, IsImage, Mimes(PictureExtensions), Max(MaxImageKilobytes)])

  /** The rules `update` validates with, written out a second time as the
      controller does. */
  const UpdateRules: RuleSet := RuleSet(
    [Required, IsString, Max(MaxTextLength)],
    [Required, IsString, Max(MaxTextLength)],
    [Nullable, IsString],
    [Nullable, IsImage, Mimes(PictureExtensions), Max(MaxImageKilobytes)])

  function RulesFor(rules: RuleSet, f: Field): seq<Rule>
  {
    match f
    case Name => rules.name
    case Type => rules.kind
    case Description => rules.description
    case Image => rules.image
  }

  function ValueOf(sub: Submission, f: Field): Value
  {
    match f
    case Name => sub.name
    case Type => sub.kind
    case Description => sub.description
    case Image => sub.image
  }

  /** What `required` treats as absent: a missing key, null, a string that
      trims to nothing, or an empty array. */
  predicate Empty(v: Value)
  {
    v.Missing? || v.Null? || (v.Str? && Blank(v.s)) || (v.Other? && v.emptyArray)
  }

  /** `mimes` also admits jpg for jpeg and jpeg for jpg. */
  predicate MimeAccepted(ext: string, exts: set<string>)
  {
    ext in exts || (ext in {"jpg", "jpeg"} && ("jpg" in exts || "jpeg" in exts))
  }

  /** One rule on a value that is present and not empty. */
  predicate RulePasses(rule: Rule, v: Value)
  {
    match rule
    case Required => true
    case Nullable => true
    case IsString => v.Str?
    case Max(limit) =>
      (match v
       case Str(s) => |s| <= limit
       case File(_, bytes) => bytes <= limit * 1024
       case _ => true)
    case IsImage => v.File? && MimeAccepted(v.ext, ImageExtensions)
    case Mimes(exts) => v.File? && MimeAccepted(v.ext, exts)
  }

  /** Whether a field passes its rules. An empty value fails exactly when the
      field is required; otherwise a missing or blank value skips the other
      rules, and so does null on a nullable field. An empty array is not
      skipped. */
  function FieldPasses(rules: seq<Rule>, v: Value): (ok: bool)
    ensures Required in rules && Empty(v) ==> !ok
    ensures v.Missing? ==> (ok <==> Required !in rules)
    ensures IsString in rules && ok ==> v.Str? || v.Missing? || (v.Null? && Nullable in rules)
  {
    if Empty(v) && Required in rules then false
    else if v.Missing? || (v.Str? && Blank(v.s)) || (v.Null? && Nullable in rules) then true
    else forall i :: 0 <= i < |rules| ==> RulePasses(rules[i], v)
  }

  /** The fields that carry an error message after validation. */
  function Errors(rules: RuleSet, sub: Submission): (errs: set<Field>)
    ensures errs <= AllFields
    ensures Required in rules.name && Empty(sub.name) ==> Name in errs
    ensures IsString in rules.name && Name !in errs ==> sub.name.Str? || sub.name.Missing? || sub.name.Null?
  {
    set f | f in AllFields && !FieldPasses(RulesFor(rules, f), ValueOf(sub, f))
  }

  // ---- the reference characterization of a valid resource submission ----

  /** A required name or type: a non-blank string of at most 255 characters. */
  predicate RequiredText(v: Value)
  {
    v.Str? && !Blank(v.s) && |v.s| <= MaxTextLength
  }

  /** The description: absent, null or any string. */
  predicate OptionalText(v: Value)
  {
    v.Missing? || v.Null? || v.Str?
  }

  /** The image: missing, null or blank, or a jpeg/png/jpg/gif upload of at
      most 2048 KB. */
  predicate OptionalPicture(v: Value)
  {
    v.Missing? || v.Null? || (v.Str? && Blank(v.s))
    || (v.File? && v.ext in PictureExtensions && v.bytes <= MaxImageKilobytes * 1024)
  }

  predicate FieldAcceptable(sub: Submission, f: Field)
  {
    match f
    case Name => RequiredText(sub.name)
    case Type => RequiredText(sub.kind)
    case Description => OptionalText(sub.description)
    case Image => OptionalPicture(sub.image)
  }

  predicate Acceptable(sub: Submission)
  {
    RequiredText(sub.name) && RequiredText(sub.kind)
    && OptionalText(sub.description) && OptionalPicture(sub.image)
  }

  /** Each field of a resource submission is flagged exactly when it breaks
      the reference characterization. */
  lemma {:induction false} StoreRulesFlag(sub: Submission, f: Field)
    ensures f in Errors(StoreRules, sub) <==> !FieldAcceptable(sub, f)
  {
    var rules, v := RulesFor(StoreRules, f), ValueOf(sub, f);
    match f
    case Name =>
      assert Required in rules;
      if !Empty(v) && !RequiredText(v) {
        assert !RulePasses(rules[1], v) || !RulePasses(rules[2], v);
      }
    case Type =>
      assert Required in rules;
      if !Empty(v) && !RequiredText(v) {
        assert !RulePasses(rules[1], v) || !RulePasses(rules[2], v);
      }
    case Description =>
      assert Nullable in rules && Required !in rules;
      if !OptionalText(v) {
        assert !RulePasses(rules[1], v);
      }
    case Image =>
      assert Nullable in rules && Required !in rules;
      if !OptionalPicture(v) {
        assert !RulePasses(rules[1], v) || !RulePasses(rules[2], v) || !RulePasses(rules[3], v);
      }
  }

  /** Validation passes exactly on the acceptable submissions. */
  lemma StoreRulesAccept(sub: Submission)
    ensures Errors(StoreRules, sub) == {} <==> Acceptable(sub)
  {
    StoreRulesFlag(sub, Name);
    StoreRulesFlag(sub, Type);
    StoreRulesFlag(sub, Description);
    StoreRulesFlag(sub, Image);
  }

  /** An update is validated by the same rules as a create. */
  lemma UpdateRulesAreStoreRules()
    ensures UpdateRules == StoreRules
  {
  }

  /** An empty name is rejected, and only the name is flagged. */
  lemma EmptyNameRejected(kind: string)
    requires !Blank(kind) && |kind| <= MaxTextLength
    ensures Errors(StoreRules, Submission(Str(""), Str(kind), Missing, Missing)) == {Name}
  {
    var sub := Submission(Str(""), Str(kind), Missing, Missing);
    StoreRulesFlag(sub, Name);
    StoreRulesFlag(sub, Type);
    StoreRulesFlag(sub, Description);
    StoreRulesFlag(sub, Image);
  }
}
