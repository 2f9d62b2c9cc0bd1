/**
 * The label `get_mod_info` shows for one installed mod folder, read off its
 * `manifest.json`: the folder name when there is no manifest, the folder
 * name and the reason when reading it fails, and otherwise the manifest's
 * `Name` followed by the Nexus id found among its `UpdateKeys`.
 */
module ModInfo {
  import opened PyStr
  import opened OsPath
  import opened Wrappers

  /** The prefix that marks an update key as a Nexus Mods key. */
  const NexusPrefix: string := "Nexus:"

  /** The separator before the id in an update key. */
  const KeySep: char := ':'

  /** The name shown when the manifest has no `Name`. */
  const UnknownName: string := "未知名称"

  /** What comes between the folder name and the reason when the manifest cannot be read. */
  const ParseFailed: string := " (解析manifest失败: "

  /** One item of the manifest's `UpdateKeys` list: a string, or any other JSON value. */
  datatype UpdateKey = Text(s: string) | NonText

  /** The parts of a parsed manifest the label uses; a missing `UpdateKeys` is the empty list. */
  datatype Manifest = Manifest(name: Option<string>, updateKeys: seq<UpdateKey>)

  /** What opening and parsing `<mod folder>/manifest.json` gives. */
  datatype ManifestProbe =
    | Absent                     // the file does not exist
    | Unreadable(reason: string) // opening or parsing raised, with this message
    | Parsed(manifest: Manifest)

  /** A string key that starts with `Nexus:`. */
  predicate IsNexusKey(k: UpdateKey) {
    k.Text? && StartsWith(k.s, NexusPrefix)
  }

  /** The first Nexus key of the list, if any. */
  function FirstNexusKey(keys: seq<UpdateKey>): Option<string> {
    if |keys| == 0 then None
    else if IsNexusKey(keys[0]) then Some(keys[0].s)
    else FirstNexusKey(keys[1..])
  }

  /** The Nexus id: the text after the last `:` of the first Nexus key, or `""` without one. */
  function NexusId(keys: seq<UpdateKey>): string {
    match FirstNexusKey(keys)
    case None => ""
    case Some(k) => LastPiece(k, KeySep)
  }

  /** The key loop of `get_mod_info`, which stops at the first Nexus key. */
  method FindNexusId(updateKeys: seq<UpdateKey>) returns (nexusId: string)
    ensures nexusId == NexusId(updateKeys)
  {
    nexusId := "";
    var i := 0;
    while i < |updateKeys|
      invariant 0 <= i <= |updateKeys|
      invariant FirstNexusKey(updateKeys[i..]) == FirstNexusKey(updateKeys)
      invariant nexusId == ""
    {
      var item := updateKeys[i];
      if item.Text? && StartsWith(item.s, NexusPrefix) {
        nexusId := LastPiece(item.s, KeySep);
        break;
      }
      assert updateKeys[i..][1..] == updateKeys[i + 1..];
      i := i + 1;
    }
    assert i == |updateKeys| ==> updateKeys[i..] == [];
  }

  /** The label of the mod folder `modPath`, given what its manifest holds. */
  function ModLabel(modPath: string, probe: ManifestProbe): string {
    match probe
    case Absent => Basename(modPath)
    case Unreadable(reason) => Basename(modPath) + ParseFailed + reason + ")"
    case Parsed(m) =>
      var name := if m.name.Some? then m.name.value else UnknownName;
      var id := NexusId(m.updateKeys);
      if id != "" then name + " (" + id + ")" else name
  }

  /** `get_mod_info`, with the key loop done by the scan. */
  method GetModInfo(modPath: string, probe: ManifestProbe) returns (text: string)
    ensures text == ModLabel(modPath, probe)
  {
    match probe {
      case Absent =>
        text := Basename(modPath);
      case Unreadable(reason) =>
        text := Basename(modPath) + ParseFailed + reason + ")";
      case Parsed(m) =>
        var name := UnknownName;
        if m.name.Some? {
          name := m.name.value;
        }
        var nexusId := FindNexusId(m.updateKeys);
        if nexusId != "" {
          text := name + " (" + nexusId + ")";
        } else {
          text := name;
        }
    }
  }

  /**
   * `FirstNexusKey` is found exactly when some key is a Nexus key, and then
   * it is the text of a Nexus key with no Nexus key before it.
   */
  lemma {:induction false} FirstNexusKeyIsFirst(keys: seq<UpdateKey>)
    ensures FirstNexusKey(keys).None? <==> forall i :: 0 <= i < |keys| ==> !IsNexusKey(keys[i])
    ensures FirstNexusKey(keys).Some? ==>
      exists i :: 0 <= i < |keys| && IsNexusKey(keys[i]) && keys[i].s == FirstNexusKey(keys).value
        && forall j :: 0 <= j < i ==> !IsNexusKey(keys[j])
  {
    if |keys| > 0 && !IsNexusKey(keys[0]) {
      var rest := keys[1..];
      FirstNexusKeyIsFirst(rest);
      assert forall i :: 1 <= i < |keys| ==> keys[i] == rest[i - 1];
      if FirstNexusKey(rest).Some? {
        var i :| 0 <= i < |rest| && IsNexusKey(rest[i]) && rest[i].s == FirstNexusKey(rest).value
          && forall j :: 0 <= j < i ==> !IsNexusKey(rest[j]);
        assert keys[i + 1] == rest[i];
        assert forall j :: 0 <= j < i + 1 ==> !IsNexusKey(keys[j]) by {
          forall j | 1 <= j < i + 1
            ensures !IsNexusKey(keys[j])
          {
            assert keys[j] == rest[j - 1];
          }
        }
      }
    }
  }

  /** Keys after the first Nexus key are ignored, even when its id is empty. */
  lemma {:induction false} NexusIdIgnoresLater(keys: seq<UpdateKey>, more: seq<UpdateKey>)
    requires exists i :: 0 <= i < |keys| && IsNexusKey(keys[i])
    ensures FirstNexusKey(keys + more) == FirstNexusKey(keys)
    ensures NexusId(keys + more) == NexusId(keys)
  {
    if !IsNexusKey(keys[0]) {
      var i :| 0 <= i < |keys| && IsNexusKey(keys[i]);
      assert keys[1..][i - 1] == keys[i];
      NexusIdIgnoresLater(keys[1..], more);
      assert (keys + more)[1..] == keys[1..] + more;
    }
  }

  /** Keys that are not Nexus keys in front of the list change nothing. */
  lemma {:induction false} NexusIdSkipsOthers(others: seq<UpdateKey>, keys: seq<UpdateKey>)
    requires forall i :: 0 <= i < |others| ==> !IsNexusKey(others[i])
    ensures FirstNexusKey(others + keys) == FirstNexusKey(keys)
    ensures NexusId(others + keys) == NexusId(keys)
  {
    if |others| > 0 {
      var all := others + keys;
      assert all[0] == others[0] && !IsNexusKey(all[0]);
      assert all[1..] == others[1..] + keys;
      NexusIdSkipsOthers(others[1..], keys);
      assert FirstNexusKey(all) == FirstNexusKey(all[1..]);
    } else {
      assert others + keys == keys;
    }
  }

  /**
   * The id is the tail of the Nexus key after its last `:`: it holds no `:`
   * and the key ends with `:` and the id.
   */
  lemma NexusIdIsKeyTail(keys: seq<UpdateKey>)
    requires FirstNexusKey(keys).Some?
    ensures KeySep !in NexusId(keys)
    ensures EndsWith(FirstNexusKey(keys).value, [KeySep] + NexusId(keys))
  {
    var k := FirstNexusKey(keys).value;
    FirstNexusKeyIsFirst(keys);
    assert StartsWith(k, NexusPrefix);
    assert k[5] == NexusPrefix[5] == KeySep;
    LastPieceIsTail(k, KeySep);
  }

  /** A Nexus key written `Nexus:<digits>` gives those digits; one with nothing after the prefix gives no id. */
  lemma NexusIdExamples()
    ensures NexusId([NonText, Text("Nexus:123")]) == "123"
    ensures NexusId([Text("Nexus:"), Text("Nexus:123")]) == ""
  {
    assert StartsWith("Nexus:123", NexusPrefix);
    LastPieceAfter("Nexus", KeySep, "123");
    assert "Nexus:123" == "Nexus" + [KeySep] + "123";
    NexusIdSkipsOthers([NonText], [Text("Nexus:123")]);
    assert StartsWith("Nexus:", NexusPrefix);
  }

  /**
   * A manifest that cannot be read is reported under the folder name,
   * followed by the reason, and never looks like the plain folder name
   * shown for a mod without a manifest.
   */
  lemma UnreadableLabel(modPath: string, reason: string)
    ensures StartsWith(ModLabel(modPath, Unreadable(reason)), Basename(modPath))
    ensures EndsWith(ModLabel(modPath, Unreadable(reason)), reason + ")")
    ensures ModLabel(modPath, Unreadable(reason)) != ModLabel(modPath, Absent)
  {
    var b := Basename(modPath);
    var text := b + ParseFailed + reason + ")";
    assert text[..|b|] == b;
    assert text[|text| - |reason + ")"|..] == reason + ")";
    assert |text| > |b|;
  }

  /**
   * A parsed manifest is shown under its name, or the stand-in name when it
   * has none, followed by the Nexus id in parentheses when there is one.
   */
  lemma ParsedLabel(modPath: string, m: Manifest)
    ensures var name := if m.name.Some? then m.name.value else UnknownName;
      && StartsWith(ModLabel(modPath, Parsed(m)), name)
      && (NexusId(m.updateKeys) == "" <==> ModLabel(modPath, Parsed(m)) == name)
      && (NexusId(m.updateKeys) != "" ==> EndsWith(ModLabel(modPath, Parsed(m)), "(" + NexusId(m.updateKeys) + ")"))
  {
    var name := if m.name.Some? then m.name.value else UnknownName;
    var id := NexusId(m.updateKeys);
    if id != "" {
      var text := name + " (" + id + ")";
      assert text[..|name|] == name;
      assert text[|text| - |"(" + id + ")"|..] == "(" + id + ")";
    }
  }

  /**
   * Without a readable manifest the label depends on the folder's own name
   * only, not on where the mods folder is.
   */
  lemma LabelIgnoresParentFolder(d1: string, d2: string, folder: string, probe: ManifestProbe)
    requires Sep !in folder && !probe.Parsed?
    ensures ModLabel(d1 + [Sep] + folder, probe) == ModLabel(d2 + [Sep] + folder, probe)
  {
    LastPieceAfter(d1, Sep, folder);
    LastPieceAfter(d2, Sep, folder);
  }
}
