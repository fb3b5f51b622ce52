# Configuration bootstrapper, modelled in Dafny

The program (`config.go`) makes sure its configuration store holds eight
required keys before anything else runs. A registry lists the keys in order:
`path`, `ghUser`, `ghOrg`, `ghKey`, `glUser`, `glKey`, `bbUser` and `bbKey`.
Each entry has a prompt label, an optional default, a secret flag and an
optional validator. `checkForConfigValues` walks the registry:

- It skips every key the store already holds. Any value counts, the empty
  string included.
- For a missing key it builds a terminal prompt and runs it. It then sets the
  answer and writes the whole store to the configuration file.
- It returns the first prompt or write error.

The three API tokens are validated by byte length: 40 for GitHub, 20 for
GitLab and Bitbucket.

Modules:

- `Wrappers` (wrappers.dfy): `Option`, standing for Go's nil-or-value.
- `GoStrings` (gostrings.dfy): Go's `len` on a string, which is the UTF-8
  byte length (`ByteLen`).
- `Registry` (registry.dfy): `Error`, `ConfigItem`, the constant
  `ConfigKeys`, and the three token validators.
- `Prompts` (prompts.dfy): the prompt built for an item (`NewPrompt`), and the
  terminal as an oracle `(Prompt, n) -> Answer`. The terminal's one
  guarantee, that an accepted value passed the prompt's validator, is the
  assumption `HonoursValidators`. `Elicit` models the terminal's own
  behaviour. It shows that the assumption can be met.
- `Store` (store.dfy): class `Viper`. Field `values` is the in-memory store;
  field `persisted` is the file as of the last successful write.
- `Reconcile` (reconcile.dfy): `Walk`, the specification of a run; lemmas
  about it; and `CheckForConfigValues`, the loop over a `Viper` object. The
  loop is proved to end in exactly the state `Walk` gives.

Collaborators are parameters (`Reconcile.Env`):

- The terminal answers the n-th prompt of a run.
- The disk gives its verdict (nil or an error) on the n-th write.

Two consequences of the code as written:

- Only newly prompted values are validated. A key that is already present
  is never re-checked, even an empty token (`PresentTokenIsNotRevalidated`).
- The token messages speak of characters, but the check counts bytes. On
  ASCII input the two agree. A 40-character token with a non-ASCII character
  is rejected (`TokenLengthInCharacters`).

## Model

| member | source | states |
|---|---|---|
| `GoStrings.RuneLen` | config.go:116 | the UTF-8 width of one character behind `len`: 1 to 4 bytes, exactly 1 for ASCII |
| `GoStrings.ByteLen` | config.go:116 | Go's `len`: never fewer bytes than characters, at most four per character |
| `GoStrings.ByteLenIsLengthIffAscii` | config.go:116 | byte length equals character count exactly when the text is ASCII |
| `Registry.GhKeyValidate` | config.go:115-120 | nil exactly when the byte length is 40, otherwise the error "GitHub Tokens must be 40 characters" |
| `Registry.GlKeyValidate` | config.go:122-127 | nil exactly when the byte length is 20, otherwise the error "GitLab Tokens must be 20 characters" |
| `Registry.BbKeyValidate` | config.go:129-134 | nil exactly when the byte length is 20, otherwise the error "Bitbucket Tokens must be 20 characters" |
| `Registry.TokenLengthInCharacters` | config.go:115-134 | on ASCII keys the validators accept exactly 40 / 20 / 20 characters; a non-ASCII key of that many characters is rejected |
| `Registry.ConfigKeys` | config.go:12-52 | no contract of its own (a constant); the eight entries in order, with label, default, secret flag and validator; its properties are RegistryNamesDistinct, RegistryNamesDistinctIgnoringCase and RegistryTokens |
| `Registry.RegistryNamesDistinct` | config.go:12-52 | the registry has eight entries with pairwise distinct names |
| `Registry.RegistryNamesDistinctIgnoringCase` | config.go:12-52 | the names stay distinct after ASCII lower-casing, so a case-folding store keeps them apart |
| `Registry.RegistryTokens` | config.go:12-52 | exactly entries 3, 5, 7 (the tokens) are secret, exactly those carry a validator, each accepts exactly its byte length; only `path` has a default |
| `Prompts.NewPrompt` | config.go:88-99 | the prompt carries the item's label and default (empty meaning none), masks with `*` exactly for secret items and otherwise has no mask, and carries the validator exactly when the item has one |
| `Prompts.Elicit` | config.go:100 | an answer the prompt accepts always passes the prompt's validator |
| `Prompts.ElicitFirstDecisive` | config.go:100 | invalid submissions are re-prompted; the first cancel, valid submission or end of input decides the answer |
| `Prompts.ElicitTakesDefault` | config.go:91-100 | an empty submission at a prompt with a valid default yields the default |
| `Prompts.SessionTerminalHonoursValidators` | config.go:97-100 | a terminal running scripted sessions meets the validation assumption |
| `Prompts.GitHubTokenRetryScenario` | config.go:97-100 | at the GitHub token prompt a 10-character entry gets the GitHub error; the 40-character one after it is accepted |
| `Store.Viper.constructor` | config.go:67 | the store read from its file: memory and file hold the same contents |
| `Store.Viper.Get` | config.go:85 | the lookup is non-nil exactly when the key is set, and then gives its value |
| `Store.Viper.Set` | config.go:105 | one key is set in memory; the file is unchanged |
| `Store.Viper.WriteConfig` | config.go:106-109 | returns the disk's verdict; on success the file equals memory, on failure it is unchanged |
| `Reconcile.Step` | config.go:85-110 | one iteration: a present key (any value, "" included) is skipped with nothing changed; a missing key is prompted for, and unless the run then fails its key is present afterwards |
| `Reconcile.Walk` | config.go:84-112 | no contract of its own; the loop, stopping at the first error; its properties are WalkIdempotent, WalkOnlyAddsAnswers, WalkComplete, WalkPromptsMissingInOrder, WalkFailsFast, WalkWriteThrough and WalkStoresAcceptedValues |
| `Reconcile.RegistryRun` | config.go:83-113 | no contract of its own; a run over the registry from a store that matches its file; its properties are ReconcileIdempotent and ReconcileStoresValidTokens |
| `Reconcile.WalkIdempotent` | config.go:84-86 | when every key is present, the run prompts for nothing, writes nothing, returns nil and changes nothing |
| `Reconcile.WalkOnlyAddsAnswers` | config.go:84-105 | present keys keep their values; each new key is an item the run prompted for, set to exactly that prompt's answer; prompts come only from the walked items |
| `Reconcile.WalkComplete` | config.go:83-113 | a run that returns nil leaves every item's key present |
| `Reconcile.WalkPromptsMissingInOrder` | config.go:84-109 | the items prompted for are a prefix of the missing items in registry order; all of them on success, at least one on failure, none after the failing one |
| `Reconcile.WalkFailsFast` | config.go:100-109 | a failed run returns exactly the terminal's or the disk's error for the last item prompted |
| `Reconcile.WalkWriteThrough` | config.go:105-109 | from a store that matches its file, on success the file equals memory; on failure only the last prompted key can be missing from the file |
| `Reconcile.WalkStoresAcceptedValues` | config.go:97-105 | under the terminal's assumed contract, every added value passes its item's validator |
| `Reconcile.ReconcileIdempotent` | config.go:83-112 | a registry run over a complete store returns nil with no prompt, no write and no change |
| `Reconcile.ReconcileStoresValidTokens` | config.go:97-105 | a token added by a registry run has byte length 40 (GitHub) or 20 (GitLab, Bitbucket) |
| `Reconcile.PresentTokenIsNotRevalidated` | config.go:85-86 | a present but empty token is kept and the run returns nil, though the validator rejects it |
| `Reconcile.DefaultPathScenario` | config.go:13-17 | on an empty store, an empty submission for `path` stores and writes "repos" |
| `Reconcile.GitHubTokenScenario` | config.go:97-110 | on an empty store, a 10-character then a 40-character GitHub token entry stores and writes the 40-character token |
| `Reconcile.CheckForConfigValues` | config.go:83-113 | the loop ends with the error, store, file and prompt sequence that `Walk` gives from the old state; on nil every key of the registry it walks is present |

## Left out

- `init()` (config.go:62-81) is not modelled: config file discovery, YAML selection, creating the file on first run, and `log.Panic`. This is file I/O. The model starts from a store read from its file (`Viper.constructor`).
- Console output (`fmt.Println`, the "already configured, skipping" notice) has no effect on state.
- The terminal library's rendering, masking display and interrupt detection are not modelled. The terminal is an oracle. `Elicit` only models its accept, default, retry and cancel behaviour. The `^D` text of its end-of-input error comes from that library, not from config.go.
- Store behaviour beyond a string map is not modelled: case-insensitive keys, environment and default layers, non-string values, YAML serialisation. `RegistryNamesDistinctIgnoringCase` shows that case folding cannot merge two registry keys.
- Store.Viper.WriteConfig: a failed write is assumed to leave the file unchanged; partial writes are not modelled.
- GoStrings.ByteLen: covers valid Unicode text only; a Go string holding invalid UTF-8 bytes is not modelled.
- Reconcile.WalkPromptsMissingInOrder: requires distinct item names, which the registry has (`RegistryNamesDistinct`).
- The store is a parameter (a `Viper` object) rather than global state, and so is the registry that `CheckForConfigValues` walks; the program walks `ConfigKeys`, which is what `RegistryRun` describes. There is no concurrency in the source.
