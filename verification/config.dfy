/** The configuration loader: a flat `key=value` reader over the lines of
    `telegram_send_config.ini`, followed by the check for the required keys. */
module Config {
  import opened Results
  import opened Text

  type Config = map<string, string>

  datatype ConfigError =
    | ConfigNotFound                  // the configuration file does not exist
    | ConfigMissingKey(key: string)   // a required key is absent after parsing

  /** The keys a configuration must define, in the order they are checked. */
  const RequiredKeys: seq<string> := ["api_id", "api_hash"]

  /** The entry one line contributes, if any: the stripped line must be non-empty, must
      not start with `#` and must contain `=`; it is split at its first `=` and both
      halves are stripped. */
  function ParseLine(line: string): (r: Option<(string, string)>)
    ensures var t := Strip(line);
      r.Some? <==> t != [] && t[0] != '#' && '=' in t
    ensures r.Some? ==> exists key, value :: Strip(line) == key + "=" + value && '=' !in key
                                            && r.value == (Strip(key), Strip(value))
  {
    var t := Strip(line);
    if t != [] && t[0] != '#' then
      match SplitAtFirst(t, '=')
      case None => None
      case Some((key, value)) => Some((Strip(key), Strip(value)))
    else None
  }

  /** The line `key=value` written for a key and value that are already stripped,
      with no `=` in the key and not starting with `#`. */
  predicate IsWritableEntry(key: string, value: string) {
    IsStripped(key) && IsStripped(value) && '=' !in key && (key == [] || key[0] != '#')
  }

  /** A line written as `key=value`, surrounded by any whitespace (a line read from
      the file still carries its newline), is read back as exactly that entry; the
      value may itself contain `=`. */
  lemma {:induction false} ParseLineOfEntry(pre: string, key: string, value: string, post: string)
    requires IsWritableEntry(key, value)
    requires AllSpace(pre) && AllSpace(post)
    ensures ParseLine(pre + key + "=" + value + post) == Some((key, value))
  {
    var t := key + "=" + value;
    assert IsStripped(t) by {
      assert t[0] == (if key == [] then '=' else key[0]);
      assert t[|t| - 1] == (if value == [] then '=' else value[|value| - 1]);
    }
    assert pre + key + "=" + value + post == pre + t + post;
    StripOf(pre, t, post);
    assert t[0] != '#' by {
      assert t[0] == (if key == [] then '=' else key[0]);
    }
    SplitAtFirstJoin(key, '=', value);
    StripStripped(key);
    StripStripped(value);
  }

  /** What each line of the file contributes, line by line. */
  type Entry = Option<(string, string)>

  function Entries(lines: seq<string>): (es: seq<Entry>)
    ensures |es| == |lines|
    ensures forall i :: 0 <= i < |lines| ==> es[i] == ParseLine(lines[i])
  {
    seq(|lines|, i requires 0 <= i < |lines| => ParseLine(lines[i]))
  }

  /** `config` after one more line's contribution. */
  function Apply(config: Config, e: Entry): Config {
    match e
    case None => config
    case Some((key, value)) => config[key := value]
  }

  /** The reading loop: the entries in order, each overwriting what earlier ones set. */
  function Fold(config: Config, es: seq<Entry>): Config
    decreases |es|
  {
    if es == [] then config else Fold(Apply(config, es[0]), es[1..])
  }

  /** The configuration the lines of a file define: exactly the keys some line defines,
      each with the value of the last line defining it. */
  function Parse(lines: seq<string>): (config: Config)
    ensures HoldsLastDefinitions(config, Entries(lines))
  {
    var config := Fold(map[], Entries(lines));
    forall key
      ensures key in config <==> LastDefinition(Entries(lines), key).Some?
      ensures key in config ==> config[key] == LastDefinition(Entries(lines), key).value
    {
      FoldIsLastDefinition(Entries(lines), key);
    }
    config
  }

  /** `config` holds exactly the keys the entries define, each with its last value. */
  ghost predicate HoldsLastDefinitions(config: Config, es: seq<Entry>) {
    forall key {:trigger LastDefinition(es, key)} ::
      && (key in config <==> LastDefinition(es, key).Some?)
      && (key in config ==> config[key] == LastDefinition(es, key).value)
  }

  /** The entry defines `key`. */
  predicate Defines(e: Entry, key: string) {
    e.Some? && e.value.0 == key
  }

  /** The value of the last entry that defines `key`, found by reading the entries
      backwards: the reference for what the reading loop is meant to keep. */
  function LastDefinition(es: seq<Entry>, key: string): (r: Option<string>)
    ensures r.None? <==> forall i :: 0 <= i < |es| ==> !Defines(es[i], key)
    ensures r.Some? ==> exists i :: 0 <= i < |es| && es[i] == Some((key, r.value))
                                    && forall j :: i < j < |es| ==> !Defines(es[j], key)
    decreases |es|
  {
    if es == [] then None
    else
      var last := es[|es| - 1];
      if Defines(last, key) then Some(last.value.1)
      else
        var r := LastDefinition(es[..|es| - 1], key);
        assert forall i :: 0 <= i < |es| - 1 ==> es[..|es| - 1][i] == es[i];
        r
  }

  /** Reading one more entry is applying it to what the earlier ones produced. */
  lemma {:induction false} FoldSnoc(config: Config, es: seq<Entry>, e: Entry)
    ensures Fold(config, es + [e]) == Apply(Fold(config, es), e)
    decreases |es|
  {
    if es == [] {
      assert [] + [e] == [e];
      assert [e][1..] == [];
    } else {
      assert (es + [e])[0] == es[0];
      assert (es + [e])[1..] == es[1..] + [e];
      FoldSnoc(Apply(config, es[0]), es[1..], e);
    }
  }

  /** The reading loop keeps, for each key, exactly the value of the last entry
      defining it, and no key that no entry defines. */
  lemma {:induction false} FoldIsLastDefinition(es: seq<Entry>, key: string)
    ensures key in Fold(map[], es) <==> LastDefinition(es, key).Some?
    ensures key in Fold(map[], es) ==> Fold(map[], es)[key] == LastDefinition(es, key).value
    decreases |es|
  {
    if es != [] {
      var init := es[..|es| - 1];
      assert es == init + [es[|es| - 1]];
      FoldSnoc(map[], init, es[|es| - 1]);
      FoldIsLastDefinition(init, key);
    }
  }

  /** The parsed configuration holds, for each key, the value of the last line
      defining it (later lines win), and holds no key that no line defines. */
  lemma ParseIsLastDefinition(lines: seq<string>, key: string)
    ensures key in Parse(lines) <==> LastDefinition(Entries(lines), key).Some?
    ensures key in Parse(lines) ==> Parse(lines)[key] == LastDefinition(Entries(lines), key).value
  {
  }

  /** The loader reports the first required key in source order: `api_id` when no line
      defines it, whatever `api_hash` is, and `api_hash` only once `api_id` is defined. */
  lemma LoadReportsFirstMissing(lines: seq<string>)
    ensures LastDefinition(Entries(lines), "api_id").None? ==>
      Load(Some(lines)) == Err(ConfigMissingKey("api_id"))
    ensures LastDefinition(Entries(lines), "api_id").Some? && LastDefinition(Entries(lines), "api_hash").None? ==>
      Load(Some(lines)) == Err(ConfigMissingKey("api_hash"))
  {
  }

  /** One more line changes at most the entry of the key it defines; a blank line,
      a comment or a line without `=` changes nothing. */
  lemma ParseAppend(lines: seq<string>, line: string)
    ensures ParseLine(line).None? ==> Parse(lines + [line]) == Parse(lines)
    ensures ParseLine(line).Some? ==>
      Parse(lines + [line]) == Parse(lines)[ParseLine(line).value.0 := ParseLine(line).value.1]
  {
    assert Entries(lines + [line]) == Entries(lines) + [ParseLine(line)];
    FoldSnoc(map[], Entries(lines), ParseLine(line));
  }

  /** The first of `keys` that `config` lacks, in the order of `keys`. */
  function FirstMissing(keys: seq<string>, config: Config): (r: Option<string>)
    ensures r.None? <==> forall i :: 0 <= i < |keys| ==> keys[i] in config
    ensures r.Some? ==> exists i :: 0 <= i < |keys| && keys[i] == r.value && r.value !in config
                                    && forall j :: 0 <= j < i ==> keys[j] in config
    decreases |keys|
  {
    if keys == [] then None
    else if keys[0] !in config then Some(keys[0])
    else
      var r := FirstMissing(keys[1..], config);
      assert forall i :: 1 <= i < |keys| ==> keys[1..][i - 1] == keys[i];
      r
  }

  /** The validation step: the configuration itself when both required keys are
      present, otherwise the first missing one, `api_id` before `api_hash`. */
  function CheckRequired(config: Config): (r: Result<Config, ConfigError>)
    ensures r.Ok? <==> "api_id" in config && "api_hash" in config
    ensures r.Ok? ==> r.value == config
    ensures "api_id" !in config ==> r == Err(ConfigMissingKey("api_id"))
    ensures "api_id" in config && "api_hash" !in config ==> r == Err(ConfigMissingKey("api_hash"))
  {
    match FirstMissing(RequiredKeys, config)
    case None => Ok(config)
    case Some(key) => Err(ConfigMissingKey(key))
  }

  /** Loading the configuration file, given as its lines, or `None` when it does not exist. */
  function Load(file: Option<seq<string>>): (r: Result<Config, ConfigError>)
    ensures file.None? <==> r == Err(ConfigNotFound)
    ensures r.Ok? ==> "api_id" in r.value && "api_hash" in r.value
    ensures r.Ok? ==> r.value == Parse(file.value)
    ensures r.Err? && file.Some? ==>
      && r.error.ConfigMissingKey?
      && r.error.key in RequiredKeys
      && LastDefinition(Entries(file.value), r.error.key).None?
  {
    match file
    case None => Err(ConfigNotFound)
    case Some(lines) =>
      var r := CheckRequired(Parse(lines));
      assert r.Err? ==> LastDefinition(Entries(lines), r.error.key).None? by {
        if r.Err? {
          ParseIsLastDefinition(lines, r.error.key);
        }
      }
      r
  }
}
