/**
 * The key registry: the fixed, ordered list of configuration items the
 * program requires, and the validators of the three API tokens.
 */
module Registry {
  import opened Wrappers
  import opened GoStrings

  /** A Go `error` value, known by its message. */
  datatype Error = Error(message: string)

  /** A `func(string) error`: None is a nil error (accept), Some rejects. */
  type Validator = string -> Option<Error>

  /**
   * One registry entry. An empty `defaultValue` means "no default" and a
   * None `validate` means "no validator", as Go's zero values do.
   */
  datatype ConfigItem = ConfigItem(
    name: string,
    prompt: string,
    defaultValue: string,
    secret: bool,
    validate: Option<Validator>)

  /** Whether a validator slot lets `value` through: no validator, or a nil error. */
  predicate Passes(validate: Option<Validator>, value: string) {
    validate.None? || validate.value(value).None?
  }

  /** Whether the item's validator, if any, lets `value` through. */
  predicate Accepts(k: ConfigItem, value: string) {
    Passes(k.validate, value)
  }

  const GitHubTokenMessage := "GitHub Tokens must be 40 characters"
  const GitLabTokenMessage := "GitLab Tokens must be 20 characters"
  const BitbucketTokenMessage := "Bitbucket Tokens must be 20 characters"

  function GhKeyValidate(key: string): (err: Option<Error>)
    ensures err.None? <==> ByteLen(key) == 40
    ensures err.Some? ==> err.value.message == GitHubTokenMessage
  {
    if ByteLen(key) != 40 then Some(Error(GitHubTokenMessage)) else None
  }

  function GlKeyValidate(key: string): (err: Option<Error>)
    ensures err.None? <==> ByteLen(key) == 20
    ensures err.Some? ==> err.value.message == GitLabTokenMessage
  {
    if ByteLen(key) != 20 then Some(Error(GitLabTokenMessage)) else None
  }

  function BbKeyValidate(key: string): (err: Option<Error>)
    ensures err.None? <==> ByteLen(key) == 20
    ensures err.Some? ==> err.value.message == BitbucketTokenMessage
  {
    if ByteLen(key) != 20 then Some(Error(BitbucketTokenMessage)) else None
  }

  const ConfigKeys: seq<ConfigItem> := [
    ConfigItem("path", "Local path to store repos", "repos", false, None),
    ConfigItem("ghUser", "GitHub Username", "", false, None),
    ConfigItem("ghOrg", "GitHub Organization (optional)", "", false, None),
    ConfigItem("ghKey", "GitHub API Token", "", true, Some(GhKeyValidate)),
    ConfigItem("glUser", "GitLab Username", "", false, None),
    ConfigItem("glKey", "GitLab API Token", "", true, Some(GlKeyValidate)),
    ConfigItem("bbUser", "Bitbucket Username", "", false, None),
    ConfigItem("bbKey", "Bitbucket API Token", "", true, Some(BbKeyValidate))
  ]

  predicate DistinctNames(items: seq<ConfigItem>) {
    forall i, j :: 0 <= i < j < |items| ==> items[i].name != items[j].name
  }

  /**
   * ASCII lower-casing. The store folds keys with full Unicode lower-casing;
   * the two agree on the registry's names, which are all ASCII.
   */
  function LowerChar(c: char): char {
    if 'A' <= c <= 'Z' then (c as int + 32) as char else c
  }

  function Lower(s: string): string {
    seq(|s|, i requires 0 <= i < |s| => LowerChar(s[i]))
  }

  /** The eight names, in order, are pairwise distinct. */
  lemma RegistryNamesDistinct()
    ensures |ConfigKeys| == 8
    ensures DistinctNames(ConfigKeys)
  {
  }

  /** The names stay distinct when the store folds them to lower case. */
  lemma RegistryNamesDistinctIgnoringCase()
    ensures forall i, j :: 0 <= i < j < |ConfigKeys| ==> Lower(ConfigKeys[i].name) != Lower(ConfigKeys[j].name)
  {
    var names := seq(|ConfigKeys|, i requires 0 <= i < |ConfigKeys| => Lower(ConfigKeys[i].name));
    assert names[1][1] == 'h' && names[4][1] == 'l' && names[6][1] == 'b';
    assert names[2][2] == 'o' && names[3][2] == 'k' && names[5][1] == 'l' && names[7][1] == 'b';
    assert names[3][1] == 'h' && names[5][2] == 'k';
  }

  /**
   * Exactly the three token items are secret and carry a validator, and
   * each accepts precisely the values of its byte length; only "path" has a
   * default.
   */
  lemma RegistryTokens()
    ensures forall i :: 0 <= i < |ConfigKeys| ==>
      (ConfigKeys[i].secret <==> ConfigKeys[i].validate.Some?) &&
      (ConfigKeys[i].secret <==> i in {3, 5, 7}) &&
      (ConfigKeys[i].defaultValue != "" <==> i == 0)
    ensures forall s :: Accepts(ConfigKeys[3], s) <==> ByteLen(s) == 40
    ensures forall s :: Accepts(ConfigKeys[5], s) <==> ByteLen(s) == 20
    ensures forall s :: Accepts(ConfigKeys[7], s) <==> ByteLen(s) == 20
  {
  }

  /**
   * On ASCII input a token validator accepts exactly the strings of the
   * stated number of characters; beyond ASCII it counts bytes, so a
   * 40-character token holding a non-ASCII character is rejected.
   */
  lemma {:induction false} TokenLengthInCharacters(key: string)
    ensures IsAscii(key) ==> (GhKeyValidate(key).None? <==> |key| == 40)
    ensures IsAscii(key) ==> (GlKeyValidate(key).None? <==> |key| == 20)
    ensures IsAscii(key) ==> (BbKeyValidate(key).None? <==> |key| == 20)
    ensures !IsAscii(key) && |key| == 40 ==> GhKeyValidate(key).Some?
    ensures !IsAscii(key) && |key| == 20 ==> GlKeyValidate(key).Some? && BbKeyValidate(key).Some?
  {
    ByteLenIsLengthIffAscii(key);
  }
}
