/**
 * The layered configuration reader: a key is resolved from the process
 * environment, then from the system properties, then from the properties
 * file, and finally falls back to the caller's default.
 */
module Config {
  import opened Wrappers
  import opened JavaLang

  /**
   * Name of the environment variable consulted for a configuration key:
   * the key upper-cased, with every '.' replaced by '_'.
   */
  function EnvName(key: string): (r: string)
    ensures |r| == |key|
    ensures forall i :: 0 <= i < |r| ==> r[i] != '.' && !IsAsciiLower(r[i])
  {
    Replace(ToUpperCase(key), '.', '_')
  }

  /** EnvName, character by character. */
  lemma EnvNameAt(key: string, i: nat)
    requires i < |key|
    ensures EnvName(key)[i] == if key[i] == '.' then '_' else UpperChar(key[i])
  {
  }

  /** A name already in environment form is its own environment name. */
  lemma EnvNameIdempotent(key: string)
    ensures EnvName(EnvName(key)) == EnvName(key)
  {
    var e := EnvName(key);
    forall i | 0 <= i < |e| ensures EnvName(e)[i] == e[i] {
      EnvNameAt(e, i);
    }
  }

  /**
   * A configuration loader: a snapshot of the process environment and of the
   * system properties, together with the properties loaded from the file.
   */
  datatype ConfigLoader = ConfigLoader(
    environment: map<string, string>,
    systemProperties: map<string, string>,
    fileProperties: map<string, string>)
  {
    /**
     * The effective configuration as one layered map: file properties,
     * overridden by system properties, overridden by the environment.
     */
    ghost function Layered(): imap<string, string>
    {
      (imap k | k in fileProperties :: fileProperties[k])
      + (imap k | k in systemProperties :: systemProperties[k])
      + (imap k | EnvName(k) in environment :: environment[EnvName(k)])
    }

    /** getString: the first layer that has the key wins. */
    function GetString(key: string, defaultValue: string): (r: string)
      ensures EnvName(key) in environment ==> r == environment[EnvName(key)]
      ensures r == defaultValue || r in environment.Values
           || r in systemProperties.Values || r in fileProperties.Values
    {
      var envName := EnvName(key);
      if envName in environment then environment[envName]
      else if key in systemProperties then systemProperties[key]
      else if key in fileProperties then fileProperties[key]
      else defaultValue
    }

    /** getString is a lookup in the layered map, falling back to the default. */
    lemma GetStringIsLayeredLookup(key: string, defaultValue: string)
      ensures GetString(key, defaultValue) == if key in Layered() then Layered()[key] else defaultValue
    {
    }

    /** Without an environment value, a system property beats file and default. */
    lemma SystemPropertyWins(key: string, defaultValue: string)
      requires EnvName(key) !in environment && key in systemProperties
      ensures GetString(key, defaultValue) == systemProperties[key]
    {
    }

    /** With neither environment nor system value, the file value or the default. */
    lemma FileThenDefault(key: string, defaultValue: string)
      requires EnvName(key) !in environment && key !in systemProperties
      ensures key in fileProperties ==> GetString(key, defaultValue) == fileProperties[key]
      ensures key !in fileProperties ==> GetString(key, defaultValue) == defaultValue
    {
    }

    /** True of a key no layer knows about. */
    predicate Absent(key: string)
    {
      EnvName(key) !in environment && key !in systemProperties && key !in fileProperties
    }

    /** getInt: the resolved string parsed as an int, or the default. */
    function GetInt(key: string, defaultValue: Int32): (r: Int32)
      ensures r == defaultValue || ParseInt(GetString(key, ValueOfInt(defaultValue))) == Some(r)
    {
      var value := GetString(key, ValueOfInt(defaultValue));
      match ParseInt(value)
      case Some(v) => v
      case None => defaultValue
    }

    /** A key absent everywhere yields the default: its decimal form parses back. */
    lemma GetIntAbsent(key: string, defaultValue: Int32)
      requires Absent(key)
      ensures GetInt(key, defaultValue) == defaultValue
    {
      ParseValueOfInt(defaultValue);
    }

    /** A configured value that is a valid int is returned as parsed. */
    lemma GetIntParsed(key: string, defaultValue: Int32)
      requires key in Layered() && ParseInt(Layered()[key]).Some?
      ensures GetInt(key, defaultValue) == ParseInt(Layered()[key]).value
    {
      GetStringIsLayeredLookup(key, ValueOfInt(defaultValue));
    }

    /** A configured value that is not a valid int yields the default. */
    lemma GetIntInvalid(key: string, defaultValue: Int32)
      requires key in Layered() && ParseInt(Layered()[key]).None?
      ensures GetInt(key, defaultValue) == defaultValue
    {
      GetStringIsLayeredLookup(key, ValueOfInt(defaultValue));
    }

    /** getBoolean: Boolean.parseBoolean of the resolved string. */
    function GetBoolean(key: string, defaultValue: bool): (r: bool)
      ensures r <==> ToLowerCase(GetString(key, ValueOfBoolean(defaultValue))) == "true"
    {
      ParseBooleanIff(GetString(key, ValueOfBoolean(defaultValue)));
      ParseBoolean(GetString(key, ValueOfBoolean(defaultValue)))
    }

    /** A key absent everywhere yields the default boolean. */
    lemma GetBooleanAbsent(key: string, defaultValue: bool)
      requires Absent(key)
      ensures GetBoolean(key, defaultValue) == defaultValue
    {
      ParseValueOfBoolean(defaultValue);
    }

    /** A configured value gives true exactly when it is "true" ignoring case. */
    lemma GetBooleanConfigured(key: string, defaultValue: bool)
      requires key in Layered()
      ensures GetBoolean(key, defaultValue) <==> EqualsIgnoreCase(Layered()[key], "true")
    {
      GetStringIsLayeredLookup(key, ValueOfBoolean(defaultValue));
    }
  }
}
