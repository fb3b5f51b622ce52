/**
 * The reconciliation pass: walk the registry in order, skip every key the
 * store already holds, prompt for each missing one, set it and write the
 * whole store to disk at once, and stop at the first prompt or write error.
 *
 * Walk is the specification of one run; CheckForConfigValues is the loop
 * over the store object, proved to end in the state Walk describes.
 */
module Reconcile {
  import opened Wrappers
  import opened GoStrings
  import opened Registry
  import opened Prompts
  import opened Store

  /** The collaborators of a run: the terminal, and the disk's verdict on the n-th write. */
  datatype Env = Env(terminal: Terminal, disk: nat -> Option<Error>)

  /**
   * A run in progress: the in-memory store, the file, the items prompted
   * for so far in order (the n-th prompt is terminal call n), the number of
   * writes issued, and the error that ended the run, if any.
   */
  datatype State = State(
    values: map<string, string>,
    persisted: map<string, string>,
    asked: seq<ConfigItem>,
    writes: nat,
    err: Option<Error>)

  function Begin(values: map<string, string>, persisted: map<string, string>): State {
    State(values, persisted, [], 0, None)
  }

  /**
   * One iteration of the loop, for item `k`: a present key is skipped with
   * nothing changed; a missing one is prompted for, and unless the run then
   * fails its key is present afterwards.
   */
  function Step(k: ConfigItem, s: State, env: Env): (r: State)
    requires s.err.None?
    ensures k.name in s.values ==> r == s
    ensures k.name !in s.values ==> r.asked == s.asked + [k]
    ensures k.name !in s.values && r.err.None? ==> r.values.Keys == s.values.Keys + {k.name}
  {
    if k.name in s.values then s
    else
      var prompted := s.(asked := s.asked + [k]);
      match env.terminal(NewPrompt(k), |s.asked|)
      case Failed(e) => prompted.(err := Some(e))
      case Entered(result) =>
        var values := s.values[k.name := result];
        var outcome := env.disk(s.writes);
        prompted.(values := values, writes := s.writes + 1,
                  persisted := if outcome.None? then values else s.persisted,
                  err := outcome)
  }

  /** The rest of a run: `items` in order from state `s`, stopping at an error. */
  function Walk(items: seq<ConfigItem>, s: State, env: Env): State
    decreases |items|
  {
    if items == [] || s.err.Some? then s else Walk(items[1..], Step(items[0], s, env), env)
  }

  /** A whole run over the registry, from a store read from its file. */
  function RegistryRun(contents: map<string, string>, env: Env): State {
    Walk(ConfigKeys, Begin(contents, contents), env)
  }

  /** Reference definition of what a run must prompt for: the items absent from the store, in order. */
  function Missing(items: seq<ConfigItem>, present: set<string>): seq<ConfigItem> {
    if items == [] then []
    else (if items[0].name in present then [] else [items[0]]) + Missing(items[1..], present)
  }

  /** Adding a key that no item names does not change what is missing. */
  lemma {:induction false} MissingIgnoresOtherKeys(items: seq<ConfigItem>, present: set<string>, key: string)
    requires forall i :: 0 <= i < |items| ==> items[i].name != key
    ensures Missing(items, present + {key}) == Missing(items, present)
  {
    if items != [] {
      MissingIgnoresOtherKeys(items[1..], present, key);
    }
  }

  /**
   * Idempotence: when every item's key is present, the run prompts for
   * nothing, writes nothing, returns nil and leaves store and file as they were.
   */
  lemma {:induction false} WalkIdempotent(items: seq<ConfigItem>, s: State, env: Env)
    requires s.err.None?
    requires forall i :: 0 <= i < |items| ==> items[i].name in s.values
    ensures Walk(items, s, env) == s
  {
    if items != [] {
      assert Step(items[0], s, env) == s;
      WalkIdempotent(items[1..], s, env);
    }
  }

  /**
   * Nothing else changes: a key already present keeps its value; every new
   * key is the name of an item the run prompted for, set to exactly that
   * prompt's answer; prompts are only appended, and only for items of the walk.
   */
  lemma {:induction false} WalkOnlyAddsAnswers(items: seq<ConfigItem>, s: State, env: Env)
    ensures var f := Walk(items, s, env);
      && s.asked <= f.asked
      && (forall j :: |s.asked| <= j < |f.asked| ==> f.asked[j] in items)
      && (forall key :: key in s.values ==> key in f.values && f.values[key] == s.values[key])
      && (forall key :: key in f.values && key !in s.values ==>
            exists j :: |s.asked| <= j < |f.asked| && f.asked[j].name == key &&
              env.terminal(NewPrompt(f.asked[j]), j) == Entered(f.values[key]))
  {
    if items != [] && s.err.None? {
      var s1 := Step(items[0], s, env);
      WalkOnlyAddsAnswers(items[1..], s1, env);
      var f := Walk(items, s, env);
      assert f == Walk(items[1..], s1, env);
      forall j | |s.asked| <= j < |f.asked| ensures f.asked[j] in items {
        if j >= |s1.asked| {
          assert f.asked[j] in items[1..];
        } else {
          assert s1.asked != s.asked;
          assert f.asked[j] == s1.asked[j] == items[0];
        }
      }
      forall key | key in f.values && key !in s.values
        ensures exists j :: |s.asked| <= j < |f.asked| && f.asked[j].name == key &&
                  env.terminal(NewPrompt(f.asked[j]), j) == Entered(f.values[key])
      {
        if key in s1.values {
          var j := |s.asked|;
          assert s1.asked == s.asked + [items[0]] && key == items[0].name;
          assert f.asked[j] == s1.asked[j] == items[0];
        }
      }
    }
  }

  /** Completeness: a run that returns nil leaves every item's key present. */
  lemma {:induction false} WalkComplete(items: seq<ConfigItem>, s: State, env: Env)
    ensures var f := Walk(items, s, env);
      f.err.None? ==> forall i :: 0 <= i < |items| ==> items[i].name in f.values
  {
    if items != [] && s.err.None? {
      var s1 := Step(items[0], s, env);
      WalkComplete(items[1..], s1, env);
      WalkOnlyAddsAnswers(items[1..], s1, env);
      var f := Walk(items, s, env);
      if f.err.None? {
        forall i | 0 <= i < |items| ensures items[i].name in f.values {
          if i > 0 { assert items[i] == items[1..][i - 1]; }
        }
      }
    }
  }

  lemma DistinctTail(items: seq<ConfigItem>)
    requires items != [] && DistinctNames(items)
    ensures DistinctNames(items[1..])
    ensures forall i :: 0 <= i < |items| - 1 ==> items[1..][i].name != items[0].name
  {
  }

  /**
   * `after` extends `before` by a prefix of `todo`: all of it when the run
   * succeeded (`ok`), at least its first item when it failed.
   */
  ghost predicate PromptedInOrder(before: seq<ConfigItem>, after: seq<ConfigItem>, todo: seq<ConfigItem>, ok: bool) {
    && |before| <= |after| <= |before| + |todo|
    && after == before + todo[..|after| - |before|]
    && (ok ==> after == before + todo)
    && (!ok ==> |after| > |before|)
  }

  lemma PromptedInOrderCons(before: seq<ConfigItem>, k: ConfigItem, after: seq<ConfigItem>, later: seq<ConfigItem>, ok: bool)
    requires PromptedInOrder(before + [k], after, later, ok)
    ensures PromptedInOrder(before, after, [k] + later, ok)
  {
  }

  lemma PromptedInOrderFirst(before: seq<ConfigItem>, k: ConfigItem, later: seq<ConfigItem>)
    ensures PromptedInOrder(before, before + [k], [k] + later, false)
  {
  }

  /**
   * Registry order: with distinct names, the run prompts for the missing
   * items in order and stops at the first failure, so the items prompted for
   * are a prefix of the missing ones (all of them when it returns nil, at
   * least one when it fails), and nothing after the failing item is prompted.
   */
  lemma {:induction false} WalkPromptsMissingInOrder(items: seq<ConfigItem>, s: State, env: Env)
    requires DistinctNames(items)
    requires s.err.None?
    ensures var f := Walk(items, s, env);
      PromptedInOrder(s.asked, f.asked, Missing(items, s.values.Keys), f.err.None?)
  {
    if items != [] {
      var k, rest := items[0], items[1..];
      DistinctTail(items);
      var s1 := Step(k, s, env);
      var f := Walk(rest, s1, env);
      var later := Missing(rest, s.values.Keys);
      if k.name in s.values {
        assert Missing(items, s.values.Keys) == later;
        WalkPromptsMissingInOrder(rest, s, env);
      } else {
        assert Missing(items, s.values.Keys) == [k] + later;
        if s1.err.None? {
          MissingIgnoresOtherKeys(rest, s.values.Keys, k.name);
          assert Missing(rest, s1.values.Keys) == later;
          WalkPromptsMissingInOrder(rest, s1, env);
          PromptedInOrderCons(s.asked, k, f.asked, later, f.err.None?);
        } else {
          assert f == s1;
          PromptedInOrderFirst(s.asked, k, later);
        }
      }
    } else {
      assert Missing(items, s.values.Keys) == [];
    }
  }

  /** The last item prompted for is the one whose prompt or write produced the run's error. */
  ghost predicate FailedAtLastPrompt(f: State, env: Env)
    requires |f.asked| > 0
  {
    var n := |f.asked| - 1;
    match env.terminal(NewPrompt(f.asked[n]), n)
    case Failed(e) => f.err == Some(e)
    case Entered(result) =>
      && f.writes > 0
      && f.err == env.disk(f.writes - 1)
      && f.asked[n].name in f.values
      && f.values[f.asked[n].name] == result
  }

  /**
   * Fail-fast: a run that fails returns exactly the error of the terminal
   * or of the write for the last item it prompted for.
   */
  lemma {:induction false} WalkFailsFast(items: seq<ConfigItem>, s: State, env: Env)
    requires s.err.None?
    ensures var f := Walk(items, s, env);
      f.err.Some? ==> |f.asked| > |s.asked| && FailedAtLastPrompt(f, env)
  {
    if items != [] {
      var s1 := Step(items[0], s, env);
      if s1.err.None? {
        WalkFailsFast(items[1..], s1, env);
      } else {
        assert Walk(items, s, env) == s1;
      }
    }
  }

  /**
   * Write-through: starting from a store that matches its file, the file
   * matches the store after a run that returns nil, and after a failed run
   * it lacks at most the key of the last prompt (whose write failed); every
   * key set earlier in the run stays written.
   */
  lemma {:induction false} WalkWriteThrough(items: seq<ConfigItem>, s: State, env: Env)
    requires s.err.None? && s.persisted == s.values
    ensures var f := Walk(items, s, env);
      && (f.err.None? ==> f.persisted == f.values)
      && (f.err.Some? ==>
            || f.persisted == f.values
            || (|f.asked| > 0 && f.persisted == f.values - {f.asked[|f.asked| - 1].name}))
  {
    if items != [] {
      var k := items[0];
      var s1 := Step(k, s, env);
      if s1.err.None? {
        WalkWriteThrough(items[1..], s1, env);
      } else {
        assert Walk(items, s, env) == s1;
        if s1.values != s.values {
          assert s1.values == s.values[k.name := s1.values[k.name]] && k.name !in s.values;
          assert s1.values - {k.name} == s.values;
        }
      }
    }
  }

  /**
   * Under the terminal's contract, every value a run adds passes the
   * validator of the item it was prompted for.
   */
  lemma WalkStoresAcceptedValues(items: seq<ConfigItem>, s: State, env: Env)
    requires HonoursValidators(env.terminal)
    ensures var f := Walk(items, s, env);
      forall key :: key in f.values && key !in s.values ==>
        exists i :: 0 <= i < |items| && items[i].name == key && Accepts(items[i], f.values[key])
  {
    WalkOnlyAddsAnswers(items, s, env);
    var f := Walk(items, s, env);
    forall key | key in f.values && key !in s.values
      ensures exists i :: 0 <= i < |items| && items[i].name == key && Accepts(items[i], f.values[key])
    {
      var j :| |s.asked| <= j < |f.asked| && f.asked[j].name == key &&
               env.terminal(NewPrompt(f.asked[j]), j) == Entered(f.values[key]);
      assert Valid(NewPrompt(f.asked[j]), f.values[key]);
      var i :| 0 <= i < |items| && items[i] == f.asked[j];
    }
  }

  /** Idempotence of a registry run: a complete store gives no prompt, no write and nil. */
  lemma ReconcileIdempotent(contents: map<string, string>, env: Env)
    requires forall i :: 0 <= i < |ConfigKeys| ==> ConfigKeys[i].name in contents
    ensures RegistryRun(contents, env) == Begin(contents, contents)
  {
    WalkIdempotent(ConfigKeys, Begin(contents, contents), env);
  }

  /** A token set by a registry run has the length its validator demands. */
  lemma ReconcileStoresValidTokens(contents: map<string, string>, env: Env)
    requires HonoursValidators(env.terminal)
    ensures var f := RegistryRun(contents, env);
      && ("ghKey" in f.values && "ghKey" !in contents ==> ByteLen(f.values["ghKey"]) == 40)
      && ("glKey" in f.values && "glKey" !in contents ==> ByteLen(f.values["glKey"]) == 20)
      && ("bbKey" in f.values && "bbKey" !in contents ==> ByteLen(f.values["bbKey"]) == 20)
  {
    WalkStoresAcceptedValues(ConfigKeys, Begin(contents, contents), env);
    RegistryNamesDistinct();
    RegistryTokens();
  }

  /**
   * Presence, not validity, decides: a token already present, even empty and
   * so one its validator rejects, is kept and the run returns nil.
   */
  lemma PresentTokenIsNotRevalidated(env: Env)
    ensures var contents := map["path" := "repos", "ghUser" := "u", "ghOrg" := "", "ghKey" := "",
                                "glUser" := "u", "glKey" := "", "bbUser" := "u", "bbKey" := ""];
      && RegistryRun(contents, env).err.None?
      && "ghKey" in RegistryRun(contents, env).values
      && RegistryRun(contents, env).values["ghKey"] == ""
      && GhKeyValidate("").Some?
  {
    var contents := map["path" := "repos", "ghUser" := "u", "ghOrg" := "", "ghKey" := "",
                        "glUser" := "u", "glKey" := "", "bbUser" := "u", "bbKey" := ""];
    ReconcileIdempotent(contents, env);
  }

  /** An empty store and an empty submission for "path" store and write its default "repos". */
  lemma DefaultPathScenario()
    ensures var env := Env(SessionTerminal([[Submit("")]]), (n: nat) => None);
      var f := Walk([ConfigKeys[0]], Begin(map[], map[]), env);
      f.err.None? && f.values == map["path" := "repos"] && f.persisted == f.values
  {
  }

  /**
   * At the GitHub token prompt of an empty store, a 10-character entry is
   * rejected and the 40-character one after it is stored and written.
   */
  lemma GitHubTokenScenario(short: string, token: string)
    requires IsAscii(short) && |short| == 10
    requires IsAscii(token) && |token| == 40
    ensures var env := Env(SessionTerminal([[Submit(short), Submit(token)]]), (n: nat) => None);
      var f := Walk([ConfigKeys[3]], Begin(map[], map[]), env);
      f.err.None? && f.values == map["ghKey" := token] && f.persisted == f.values
  {
    GitHubTokenRetryScenario(short, token);
  }

  /**
   * The reconciliation loop over a registry (the program passes ConfigKeys)
   * and the store object: its result and the store's new state are those of
   * Walk from the old state, and when it returns nil every key is present.
   */
  method CheckForConfigValues(viper: Viper, keys: seq<ConfigItem>, env: Env)
    returns (err: Option<Error>, ghost asked: seq<ConfigItem>)
    modifies viper
    ensures var f := Walk(keys, Begin(old(viper.values), old(viper.persisted)), env);
      err == f.err && viper.values == f.values && viper.persisted == f.persisted && asked == f.asked
    ensures err.None? ==> forall i :: 0 <= i < |keys| ==> keys[i].name in viper.values
  {
    ghost var goal := Walk(keys, Begin(viper.values, viper.persisted), env);
    WalkComplete(keys, Begin(viper.values, viper.persisted), env);
    var prompts: nat := 0;
    var writes: nat := 0;
    asked := [];
    for i := 0 to |keys|
      invariant prompts == |asked|
      invariant Walk(keys[i..], State(viper.values, viper.persisted, asked, writes, None), env) == goal
    {
      var k := keys[i];
      ghost var s := State(viper.values, viper.persisted, asked, writes, None);
      assert keys[i..][1..] == keys[i + 1..];
      var v := viper.Get(k.name);
      if v.None? {
        var answer := env.terminal(NewPrompt(k), prompts);
        prompts := prompts + 1;
        asked := asked + [k];
        match answer
        case Failed(e) =>
          err := Some(e);
          assert Step(k, s, env) == State(viper.values, viper.persisted, asked, writes, err);
          return;
        case Entered(result) =>
          viper.Set(k.name, result);
          err := viper.WriteConfig(env.disk(writes));
          writes := writes + 1;
          assert Step(k, s, env) == State(viper.values, viper.persisted, asked, writes, err);
          if err.Some? {
            return;
          }
      }
    }
    err := None;
  }
}
