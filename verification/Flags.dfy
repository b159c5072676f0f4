/** A feature flag as a value, key validation, and the error kinds of featureflag/core. */
module Flags {
  import opened Prelude

  type Metadata = map<string, string>

  /** metadata None is Go's nil map; time 0 is Go's zero time. */
  datatype Flag = Flag(key: string, enabled: bool, description: string, createdAt: int, updatedAt: int,
                       metadata: Option<Metadata>)

  /** EmptyKey and BadCharacter are Validate's two errors, InvalidFlag is ErrInvalidFlag. */
  datatype Error = NotFound | InvalidFlag | EmptyKey | BadCharacter | ClientClosed

  predicate IsNotFoundError(e: Error) {
    e.NotFound?
  }

  /** Everything but the two timestamps. */
  function Content(f: Flag): Flag {
    f.(createdAt := 0, updatedAt := 0)
  }

  lemma ContentMeaning(f: Flag, g: Flag)
    ensures Content(f) == Content(g) <==>
              f.key == g.key && f.enabled == g.enabled && f.description == g.description && f.metadata == g.metadata
  {
  }

  /** SetTimestamps. */
  function Stamp(f: Flag, now: int): Flag {
    f.(createdAt := if f.createdAt == 0 then now else f.createdAt, updatedAt := now)
  }

  predicate KeyCharacter(c: char) {
    'a' <= c <= 'z' || 'A' <= c <= 'Z' || '0' <= c <= '9' || c == '-' || c == '_'
  }

  predicate ValidKey(key: string) {
    key != "" && forall i :: 0 <= i < |key| ==> KeyCharacter(key[i])
  }

  /** The code points that strings.TrimSpace removes (Unicode White_Space). */
  predicate IsSpace(c: char) {
    var n := c as int;
    || 0x09 <= n <= 0x0D
    || 0x2000 <= n <= 0x200A
    || n in {0x20, 0x85, 0xA0, 0x1680, 0x2028, 0x2029, 0x202F, 0x205F, 0x3000}
  }

  function TrimLeft(s: string): string {
    if s != "" && IsSpace(s[0]) then TrimLeft(s[1..]) else s
  }

  function TrimRight(s: string): string {
    if s != "" && IsSpace(s[|s| - 1]) then TrimRight(s[..|s| - 1]) else s
  }

  function TrimSpace(s: string): string {
    TrimRight(TrimLeft(s))
  }

  lemma {:induction false} TrimLeftKeeps(s: string)
    ensures TrimLeft(s) == "" <==> forall i :: 0 <= i < |s| ==> IsSpace(s[i])
    ensures TrimLeft(s) != "" ==> !IsSpace(TrimLeft(s)[0])
  {
    if s != "" && IsSpace(s[0]) {
      TrimLeftKeeps(s[1..]);
      assert forall i :: 1 <= i < |s| ==> s[i] == s[1..][i - 1];
    }
  }

  lemma {:induction false} TrimRightKeeps(s: string)
    requires s != "" && !IsSpace(s[0])
    ensures TrimRight(s) != ""
  {
    if IsSpace(s[|s| - 1]) {
      TrimRightKeeps(s[..|s| - 1]);
    }
  }

  lemma TrimSpaceEmpty(s: string)
    ensures TrimSpace(s) == "" <==> forall i :: 0 <= i < |s| ==> IsSpace(s[i])
  {
    TrimLeftKeeps(s);
    if TrimLeft(s) != "" {
      TrimRightKeeps(TrimLeft(s));
    }
  }

  /** Validate accepts exactly the non-empty keys made of letters, digits, hyphens and underscores,
      and blames emptiness exactly for keys of nothing but white space. */
  method Validate(key: string) returns (err: Option<Error>)
    ensures err == None <==> ValidKey(key)
    ensures err == Some(EmptyKey) <==> forall i :: 0 <= i < |key| ==> IsSpace(key[i])
    ensures err == None || err == Some(EmptyKey) || err == Some(BadCharacter)
    ensures err == Validation(key)
  {
    TrimSpaceEmpty(key);
    if TrimSpace(key) == "" {
      return Some(EmptyKey);
    }
    for i := 0 to |key|
      invariant forall j :: 0 <= j < i ==> KeyCharacter(key[j])
    {
      if !KeyCharacter(key[i]) {
        return Some(BadCharacter);
      }
    }
    return None;
  }

  function Validation(key: string): Option<Error> {
    if TrimSpace(key) == "" then Some(EmptyKey) else if ValidKey(key) then None else Some(BadCharacter)
  }

  lemma ValidationMeaning(key: string)
    ensures Validation(key) == None <==> ValidKey(key)
  {
    TrimSpaceEmpty(key);
  }
}
