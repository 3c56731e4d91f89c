/**
 * The item filter: decides which NameSpace entries are essential system
 * folders (never offered), which are the user's own folders (never offered),
 * and what name an offered entry is shown under. Pure and total.
 */
module ItemFilter {
  import opened Wrappers
  import opened Text

  /** Known bloatware GUIDs and their friendly names; looked up case-sensitively. */
  const KnownItems: map<string, string> := map[
    "{018D5C66-4533-4307-9B53-224DE2ED1FE6}" := "OneDrive - Personal",
    "{04271989-C4D2-5507-C554-ABE25D4BDDBA}" := "OneDrive"
  ]

  /** Essential system folders that must never be removed. */
  const Blacklist: seq<string> := [
    "{f874310e-b6b7-47dc-bc84-b9e6b38f5903}", // Pictures
    "{B4BFCC3A-DB2C-424C-B029-7FE99A87C641}", // Desktop
    "{d3162b92-9365-467a-956b-92703aca08af}", // Documents
    "{088e3905-0323-4b02-9826-5d99428e115f}", // Downloads
    "{24ad3ad4-a569-4530-98e1-ab02f9417aa6}", // Pictures (alternate)
    "{3dfdf296-dbec-4fb4-81d1-6a3438bcf4de}", // Music
    "{f86fa3ab-70d2-4fc7-9c99-fcbf05467f3a}"  // Videos
  ]

  /** The blacklist as a case-insensitive hash set keeps it: one upper-cased key per entry. */
  const BlacklistKeys: set<string> := set g | g in Blacklist :: Upper(g)

  /** Name tokens that mark a NameSpace entry as one of the user's own folders. */
  const CustomFolders: seq<string> := [
    "Apps", "Code", "Data", "Virtual Machines", "Obsidian Notes",
    "Notepad", "Docker Containers", "Archives", "Workspaces"
  ]

  /** The name shown when neither the table nor the registry supplies one. */
  const UnknownItem: string := "Unknown Item"

  /** Whether `guid` is one of the protected GUIDs, compared ignoring case. */
  function IsBlacklisted(guid: string): (r: bool)
    ensures r <==> exists i :: 0 <= i < |Blacklist| && EqualsIgnoreCase(guid, Blacklist[i])
  {
    var r := Upper(guid) in BlacklistKeys;
    assert r ==> exists i :: 0 <= i < |Blacklist| && EqualsIgnoreCase(guid, Blacklist[i]) by {
      if r {
        var g :| g in Blacklist && Upper(g) == Upper(guid);
        var i :| 0 <= i < |Blacklist| && Blacklist[i] == g;
        UpperEqualIff(guid, g);
      }
    }
    assert (exists i :: 0 <= i < |Blacklist| && EqualsIgnoreCase(guid, Blacklist[i])) ==> r by {
      if i :| 0 <= i < |Blacklist| && EqualsIgnoreCase(guid, Blacklist[i]) {
        UpperEqualIff(guid, Blacklist[i]);
      }
    }
    r
  }

  /** Some token of `folders` occurs in `s`, ignoring case (LINQ `Any`). */
  function AnyOccurs(s: string, folders: seq<string>): (r: bool)
    ensures r <==> exists i :: 0 <= i < |folders| && OccursIgnoreCase(s, folders[i])
  {
    if |folders| == 0 then false
    else if ContainsIgnoreCase(s, folders[0]) then true
    else
      var r := AnyOccurs(s, folders[1..]);
      assert r ==> exists i :: 0 <= i < |folders| && OccursIgnoreCase(s, folders[i]) by {
        if r {
          var i :| 0 <= i < |folders| - 1 && OccursIgnoreCase(s, folders[1..][i]);
          assert folders[1..][i] == folders[i + 1];
        }
      }
      assert (exists i :: 0 <= i < |folders| && OccursIgnoreCase(s, folders[i])) ==> r by {
        if i :| 0 <= i < |folders| && OccursIgnoreCase(s, folders[i]) {
          assert i != 0;
          assert folders[1..][i - 1] == folders[i];
        }
      }
      r
  }

  /**
   * Whether a registry default value names one of the user's own folders:
   * never for a missing or blank value, otherwise exactly when some token
   * of `CustomFolders` occurs in it ignoring case.
   */
  function IsCustomFolder(displayName: Option<string>): (r: bool)
    ensures IsNullOrWhiteSpace(displayName) ==> !r
    ensures !IsNullOrWhiteSpace(displayName) ==>
      (r <==> exists i :: 0 <= i < |CustomFolders| && OccursIgnoreCase(displayName.value, CustomFolders[i]))
  {
    if IsNullOrWhiteSpace(displayName) then false
    else AnyOccurs(displayName.value, CustomFolders)
  }

  /**
   * The friendly name of an entry: the table name of a known GUID (whatever
   * the registry says), else the registry default value when it is not
   * blank, else "Unknown Item". The result is never blank.
   */
  function GetDisplayName(guid: string, defaultValue: Option<string>): (r: string)
    ensures guid in KnownItems ==> r == KnownItems[guid]
    ensures guid !in KnownItems && !IsNullOrWhiteSpace(defaultValue) ==> r == defaultValue.value
    ensures guid !in KnownItems && IsNullOrWhiteSpace(defaultValue) ==> r == UnknownItem
    ensures !IsBlank(r)
  {
    if guid in KnownItems then
      assert !IsWhiteSpace(KnownItems[guid][0]);
      KnownItems[guid]
    else if !IsNullOrWhiteSpace(defaultValue) then defaultValue.value
    else
      assert !IsWhiteSpace(UnknownItem[0]);
      UnknownItem
  }

  // ---------------------------------------------------------------- properties

  /** The blacklist decision does not depend on letter case. */
  lemma BlacklistIgnoresCase(a: string, b: string)
    requires EqualsIgnoreCase(a, b)
    ensures IsBlacklisted(a) == IsBlacklisted(b)
  {
    UpperEqualIff(a, b);
  }

  /** Upper-casing a GUID does not change whether it is protected (so the upper-case spelling of a listed GUID is protected too). */
  lemma UpperCaseKeepsBlacklisted(g: string)
    ensures IsBlacklisted(Upper(g)) <==> IsBlacklisted(g)
  {
    assert EqualsIgnoreCase(Upper(g), g) by {
      forall i | 0 <= i < |g| ensures ToUpper(Upper(g)[i]) == ToUpper(g[i]) {
        assert Upper(g)[i] == ToUpper(g[i]);
      }
    }
    BlacklistIgnoresCase(Upper(g), g);
  }

  /** Every listed GUID is protected, both as listed and upper-cased (the Pictures GUID in capitals, say). */
  lemma ListedGuidsProtected(i: nat)
    requires i < |Blacklist|
    ensures IsBlacklisted(Blacklist[i]) && IsBlacklisted(Upper(Blacklist[i]))
  {
    UpperCaseKeepsBlacklisted(Blacklist[i]);
  }

  /** The seven blacklist entries are distinct even ignoring case, so the hash set keeps all seven. */
  lemma BlacklistEntriesDistinct()
    ensures forall i, j :: 0 <= i < j < |Blacklist| ==> !EqualsIgnoreCase(Blacklist[i], Blacklist[j])
  {
    forall i, j | 0 <= i < j < |Blacklist| ensures !EqualsIgnoreCase(Blacklist[i], Blacklist[j]) {
      var k := if Blacklist[i][1] == Blacklist[j][1] then 3 else 1;
      assert ToUpper(Blacklist[i][k]) != ToUpper(Blacklist[j][k]);
    }
  }

  /** The GUIDs that have a friendly name are not protected, so they can be offered and removed. */
  lemma KnownItemsNotProtected(guid: string)
    requires guid in KnownItems
    ensures !IsBlacklisted(guid)
  {
    assert guid == "{018D5C66-4533-4307-9B53-224DE2ED1FE6}" || guid == "{04271989-C4D2-5507-C554-ABE25D4BDDBA}";
    forall i | 0 <= i < |Blacklist| ensures !EqualsIgnoreCase(guid, Blacklist[i]) {
      var k := if Blacklist[i][1] == '0' then 2 else 1;
      assert ToUpper(guid[k]) != ToUpper(Blacklist[i][k]);
    }
  }

  /** A default value that is exactly one of the folder tokens, in any case, marks a custom folder. */
  lemma CustomFolderTokensProtected(i: nat, name: string)
    requires i < |CustomFolders| && EqualsIgnoreCase(name, CustomFolders[i])
    ensures IsCustomFolder(Some(name))
  {
    assert !IsWhiteSpace(CustomFolders[i][0]);
    assert !IsWhiteSpace(name[0]) by { assert ToUpper(name[0]) == ToUpper(CustomFolders[i][0]); }
    assert name[0..0 + |CustomFolders[i]|] == name;
    assert MatchesAt(name, CustomFolders[i], 0);
  }

  /** "My apps" and "Metadata" (it contains "data") both count as custom folders. */
  lemma CustomFolderExamples()
    ensures IsCustomFolder(Some("My apps"))
    ensures IsCustomFolder(Some("Metadata"))
  {
    assert !IsWhiteSpace("My apps"[0]);
    assert MatchesAt("My apps", CustomFolders[0], 3);
    assert !IsWhiteSpace("Metadata"[0]);
    assert MatchesAt("Metadata", CustomFolders[2], 4);
  }

  /** The known-items table is case-sensitive: the lower-cased OneDrive GUID is not in it. */
  lemma KnownItemsAreCaseSensitive()
    ensures GetDisplayName("{04271989-c4d2-5507-c554-abe25d4bddba}", None) == UnknownItem
    ensures GetDisplayName("{04271989-C4D2-5507-C554-ABE25D4BDDBA}", Some("Anything")) == "OneDrive"
  {
  }
}
