/** The search for a setting in the bundle's bytes: the name, one separator, then text up to a NUL. */
module ConfigSettings {
  import opened Words

  predicate OccursAt(bundle: seq<int>, setting: seq<Byte>, i: nat) {
    i + |setting| <= |bundle| && forall j :: 0 <= j < |setting| ==> bundle[i + j] == setting[j] as int
  }

  /** The first occurrence that still has a separator and a value byte after it. */
  function FirstMatch(bundle: seq<int>, setting: seq<Byte>, from: nat): (at: Option<nat>)
    ensures at.None? ==> forall i: nat :: from <= i < |bundle| - |setting| - 1 ==> !OccursAt(bundle, setting, i)
    ensures at.Some? ==>
      && from <= at.value < |bundle| - |setting| - 1 && OccursAt(bundle, setting, at.value)
      && forall i :: from <= i < at.value ==> !OccursAt(bundle, setting, i)
    decreases |bundle| - from
  {
    if from >= |bundle| - |setting| - 1 then None
    else if OccursAt(bundle, setting, from) then Some(from)
    else FirstMatch(bundle, setting, from + 1)
  }

  /** The cast to `char`. */
  function Char(x: int): Char16 {
    x % 0x1_0000
  }

  /** `text` is what stands from `start` up to the next NUL. */
  predicate IsText(bundle: seq<int>, start: nat, text: seq<Char16>) {
    && start + |text| < |bundle| && Char(bundle[start + |text|]) == 0
    && forall j :: 0 <= j < |text| ==> text[j] == Char(bundle[start + j]) != 0
  }

  lemma CharIs(c: Char16)
    ensures Char(c) == c
  {
  }

  lemma NoNulBefore(bundle: seq<int>, start: nat, read: seq<Char16>)
    requires IsText(bundle, start, read)
    ensures forall i :: start <= i < start + |read| ==> Char(bundle[i]) != 0
  {
    forall i | start <= i < start + |read| ensures Char(bundle[i]) != 0 { assert read[i - start] != 0; }
  }

  lemma NoLonger(bundle: seq<int>, start: nat, text: seq<Char16>, read: seq<Char16>)
    requires IsText(bundle, start, text) && IsText(bundle, start, read)
    ensures |read| <= |text|
  {
    NoNulBefore(bundle, start, read);
  }

  lemma TextIsUnique(bundle: seq<int>, start: nat, text: seq<Char16>, read: seq<Char16>)
    requires IsText(bundle, start, text) && IsText(bundle, start, read)
    ensures read == text
  {
    NoLonger(bundle, start, text, read);
    NoLonger(bundle, start, read, text);
  }

  lemma TextIsRead(bundle: seq<int>, start: nat, text: seq<Char16>)
    requires 0 !in text && start + |text| < |bundle| && bundle[start + |text|] == 0
    requires forall j :: 0 <= j < |text| ==> bundle[start + j] == text[j]
    ensures IsText(bundle, start, text)
  {
    CharIs(0);
    forall j | 0 <= j < |text| ensures Char(bundle[start + j]) == text[j] != 0 {
      CharIs(text[j]);
      assert text[j] in text;
    }
  }

  function Part(bundle: seq<int>, from: nat, n: nat): seq<int>
    requires from + n <= |bundle|
  {
    bundle[from..from + n]
  }

  lemma SameName(bundle: seq<int>, setting: seq<Byte>, i: nat, j: nat)
    requires OccursAt(bundle, setting, i) && OccursAt(bundle, setting, j)
    ensures i + |setting| <= |bundle| && j + |setting| <= |bundle|
    ensures Part(bundle, i, |setting|) == Part(bundle, j, |setting|)
  {
    var x, y := Part(bundle, i, |setting|), Part(bundle, j, |setting|);
    forall k | 0 <= k < |setting| ensures x[k] == y[k] {
      assert x[k] == bundle[i + k] == setting[k] as int && y[k] == bundle[j + k] == setting[k] as int;
    }
  }

  /** A setting written as its name, any one separator and a text that ends in a NUL is found with exactly
      that text, when the name does not occur before it. */
  lemma WrittenIsRead(bundle: seq<int>, setting: seq<Byte>, at: nat, text: seq<Char16>, read: seq<Char16>)
    requires at + |setting| + 1 + |text| < |bundle|
    requires forall j :: 0 <= j < |setting| ==> bundle[at + j] == setting[j] as int
    requires forall j :: 0 <= j < |text| ==> bundle[at + |setting| + 1 + j] == text[j]
    requires 0 !in text && bundle[at + |setting| + 1 + |text|] == 0
    requires forall i :: 0 <= i < at ==> Part(bundle, i, |setting|) != Part(bundle, at, |setting|)
    ensures FirstMatch(bundle, setting, 0) == Some(at)
    ensures IsText(bundle, at + |setting| + 1, read) <==> read == text
  {
    assert OccursAt(bundle, setting, at);
    forall i | 0 <= i < at ensures !OccursAt(bundle, setting, i) {
      if OccursAt(bundle, setting, i) { SameName(bundle, setting, i, at); }
    }
    TextIsRead(bundle, at + |setting| + 1, text);
    if IsText(bundle, at + |setting| + 1, read) { TextIsUnique(bundle, at + |setting| + 1, text, read); }
  }

  /** The inner loop: whether the setting stands at `i`. */
  method Matches(bundle: seq<int>, setting: seq<Byte>, i: nat) returns (found: bool)
    requires i + |setting| <= |bundle|
    ensures found <==> OccursAt(bundle, setting, i)
  {
    found := true;
    for j := 0 to |setting|
      invariant found && forall k :: 0 <= k < j ==> bundle[i + k] == setting[k] as int
    {
      if !(bundle[i + j] == setting[j] as int) {
        return false;
      }
    }
  }

  /** The text from `start`, or none when it runs off the array. */
  method ReadText(bundle: seq<int>, start: nat) returns (text: Option<seq<Char16>>)
    requires start < |bundle|
    ensures text.Some? ==> IsText(bundle, start, text.value)
    ensures text.None? ==> forall k :: start <= k < |bundle| ==> Char(bundle[k]) != 0
  {
    var s: seq<Char16> := [];
    var i := start;
    var ch := Char(bundle[i]);
    while ch != 0
      invariant start <= i < |bundle| && ch == Char(bundle[i]) && |s| == i - start
      invariant forall j :: 0 <= j < |s| ==> s[j] == Char(bundle[start + j]) != 0
      invariant forall k :: start <= k < i ==> Char(bundle[k]) != 0
      decreases |bundle| - i
    {
      s := s + [ch];
      if i + 1 >= |bundle| {
        return None;
      }
      i := i + 1;
      ch := Char(bundle[i]);
    }
    return Some(s);
  }

  /** `getConfigSetting`: the text one byte after the first match, the empty text when there is no
      match, and no result (it throws) exactly when no NUL ends the text. */
  method GetConfigSetting(bundle: seq<int>, setting: seq<Byte>) returns (value: Option<seq<Char16>>)
    ensures match FirstMatch(bundle, setting, 0)
      case None => value == Some([])
      case Some(at) =>
        var start := at + |setting| + 1;
        if value.Some? then IsText(bundle, start, value.value)
        else forall k :: start <= k < |bundle| ==> Char(bundle[k]) != 0
  {
    var found := false;
    var i := 0;
    while i < |bundle| - |setting| - 1 && !found
      invariant 0 <= i
      invariant FirstMatch(bundle, setting, 0) == if found then Some(i) else FirstMatch(bundle, setting, i)
      decreases |bundle| - i, !found
    {
      found := Matches(bundle, setting, i);
      if !found {
        i := i + 1;
      }
    }
    if !found {
      return Some([]);
    }
    value := ReadText(bundle, i + |setting| + 1);
  }
}
