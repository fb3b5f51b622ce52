/**
 * The configuration store (viper): an in-memory key-value map, and the
 * contents of the configuration file as of the last successful write.
 */
module Store {
  import opened Wrappers
  import opened Registry

  class Viper {
    /** What `Get` sees and `Set` changes. */
    var values: map<string, string>
    /** What the configuration file holds. */
    var persisted: map<string, string>

    /** The store as read from an existing configuration file. */
    constructor (contents: map<string, string>)
      ensures values == contents && persisted == contents
    {
      values := contents;
      persisted := contents;
    }

    /** A lookup: nil exactly when the key was never set; "" is a value. */
    method Get(key: string) returns (v: Option<string>)
      ensures v.Some? <==> key in values
      ensures v.Some? ==> v.value == values[key]
    {
      if key in values {
        v := Some(values[key]);
      } else {
        v := None;
      }
    }

    /** Sets one key in memory; the file is untouched. */
    method Set(key: string, value: string)
      modifies this
      ensures values == old(values)[key := value]
      ensures persisted == old(persisted)
    {
      values := values[key := value];
    }

    /**
     * Writes the whole in-memory store to the file. `outcome` is the disk's
     * verdict on this write; on failure the file keeps its old contents.
     */
    method WriteConfig(outcome: Option<Error>) returns (err: Option<Error>)
      modifies this
      ensures err == outcome
      ensures values == old(values)
      ensures persisted == if outcome.None? then values else old(persisted)
    {
      if outcome.None? {
        persisted := values;
      }
      err := outcome;
    }
  }
}
