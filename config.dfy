/**
 * The two configuration sections the transcriber reads, and the two
 * configparser reads it makes of them: a plain lookup (section[key] and
 * section.get(key, default)) and getboolean.
 */
module Config {
  import opened Wrappers

  /** One section of the configuration file: its (key, value) pairs in file order */
  type Section = seq<(string, string)>

  /** configparser refuses a file that repeats a key within a section */
  predicate UniqueKeys(section: Section) {
    forall i, j :: 0 <= i < j < |section| ==> section[i].0 != section[j].0
  }

  /** The value stored under key, if the section (or table) has that key */
  function Lookup<V>(section: seq<(string, V)>, key: string): (r: Option<V>)
    ensures r.None? <==> forall i :: 0 <= i < |section| ==> section[i].0 != key
    ensures r.Some? ==> (key, r.value) in section
  {
    if section == [] then None
    else if section[0].0 == key then Some(section[0].1)
    else Lookup(section[1..], key)
  }

  /** In a section without repeated keys, lookup behaves as a dictionary:
      it yields the one value stored under the key. */
  lemma {:induction false} LookupFindsStoredValue(section: Section, key: string, value: string)
    requires UniqueKeys(section)
    requires (key, value) in section
    ensures Lookup(section, key) == Some(value)
  {
    if section[0] != (key, value) {
      var k :| 0 <= k < |section| && section[k] == (key, value);
      assert section[0].0 != key;
      assert section[1..][k - 1] == (key, value);
      LookupFindsStoredValue(section[1..], key, value);
    }
  }

  /** str.lower() on one character, restricted to ASCII letters */
  function LowerChar(c: char): char {
    if 'A' <= c <= 'Z' then (c as int - 'A' as int + 'a' as int) as char else c
  }

  function ToLower(s: string): (r: string)
    ensures |r| == |s|
    ensures forall i :: 0 <= i < |s| ==> r[i] == LowerChar(s[i])
  {
    seq(|s|, i requires 0 <= i < |s| => LowerChar(s[i]))
  }

  /** configparser's table of the spellings getboolean accepts, in lower case */
  const BOOLEAN_STATES: seq<(string, bool)> := [
    ("1", true), ("yes", true), ("true", true), ("on", true),
    ("0", false), ("no", false), ("false", false), ("off", false)]

  /** getboolean: the value, lower-cased, looked up in BOOLEAN_STATES; None
      stands for the ValueError raised for any other spelling. As documented,
      1/yes/true/on are true, 0/no/false/off are false, whatever their case,
      and nothing else (not even the empty string) parses. */
  function GetBoolean(value: string): (r: Option<bool>)
    ensures r == Some(true) <==> ToLower(value) in {"1", "yes", "true", "on"}
    ensures r == Some(false) <==> ToLower(value) in {"0", "no", "false", "off"}
    ensures r.None? <==> ToLower(value) !in {"1", "yes", "true", "on", "0", "no", "false", "off"}
    ensures r.Some? ==> 1 <= |value| <= 5
  {
    Lookup(BOOLEAN_STATES, ToLower(value))
  }

  /** Two spellings that differ only in letter case parse the same way */
  lemma GetBooleanIgnoresCase(value: string, other: string)
    requires |value| == |other|
    requires forall i :: 0 <= i < |value| ==> LowerChar(value[i]) == LowerChar(other[i])
    ensures GetBoolean(value) == GetBoolean(other)
  {
    assert ToLower(value) == ToLower(other);
  }
}
