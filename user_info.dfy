/**
 * The roles and key-permissions fields of the `/userinfo` embed
 * (bot.py:1119-1153).
 */
module UserInfo {
  import opened Wrappers
  import opened PyStr
  import opened Embed

  /** At most this many roles are listed before the "... and N more" marker. */
  const MAX_ROLES_SHOWN: nat := 10
  /** At most this many key permissions are shown. */
  const MAX_KEY_PERMS_SHOWN: nat := 5

  const KEY_PERMS_TITLE: string := "\U{1F511} Key Permissions"
  const NO_ROLES: string := "No roles"

  /** The key permissions, in the order the handler tests them. */
  const KEY_PERM_NAMES: seq<string> :=
    ["Administrator", "Manage Server", "Manage Channels", "Manage Messages", "Kick Members", "Ban Members"]

  /** The six permission flags of `user.guild_permissions` the handler reads. */
  datatype Permissions = Permissions(
    administrator: bool, manageGuild: bool, manageChannels: bool,
    manageMessages: bool, kickMembers: bool, banMembers: bool)

  /** The flags in the order of `KEY_PERM_NAMES`. */
  function Flags(p: Permissions): (flags: seq<bool>)
    ensures |flags| == |KEY_PERM_NAMES|
  {
    [p.administrator, p.manageGuild, p.manageChannels, p.manageMessages, p.kickMembers, p.banMembers]
  }

  const ROLES_TITLE_PREFIX: string := "\U{1F3AD} Roles ("

  /** The roles field title, `f"🎭 Roles ({count})"`. */
  function RolesTitle(count: nat): string
  {
    ROLES_TITLE_PREFIX + NatToString(count) + ")"
  }

  /** The marker `f"... and {omitted} more"`. */
  function MoreMarker(omitted: nat): string
  {
    "... and " + NatToString(omitted) + " more"
  }

  /** The names whose flag is set, keeping their order. */
  function Selected(names: seq<string>, flags: seq<bool>): (r: seq<string>)
    requires |names| == |flags|
    ensures |r| <= |names|
  {
    if names == [] then []
    else Selected(names[..|names| - 1], flags[..|flags| - 1]) + Granted(flags[|flags| - 1], names[|names| - 1])
  }

  /** What one `if flag: key_perms.append(name)` contributes. */
  function Granted(flag: bool, name: string): seq<string>
  {
    if flag then [name] else []
  }

  /** `a` can be obtained from `b` by deleting elements. */
  predicate IsSubsequence(a: seq<string>, b: seq<string>)
    decreases |b|
  {
    if a == [] then true
    else if b == [] then false
    else (a[|a| - 1] == b[|b| - 1] && IsSubsequence(a[..|a| - 1], b[..|b| - 1])) || IsSubsequence(a, b[..|b| - 1])
  }

  /** The roles field of bot.py:1120-1129. `userRoles` are the role mentions
      in the order Discord lists them, `@everyone` first. Besides the field,
      the list `roles` the handler builds is returned. */
  method RolesField(userRoles: seq<string>) returns (roles: seq<string>, field: Option<Field>)
    ensures field.Some? <==> |userRoles| > 1
    ensures |userRoles| <= 1 ==> roles == []
    ensures 1 < |userRoles| <= MAX_ROLES_SHOWN + 1 ==> roles == userRoles[1..]
    ensures |userRoles| > MAX_ROLES_SHOWN + 1 ==>
      && |roles| == MAX_ROLES_SHOWN + 1
      && roles[..MAX_ROLES_SHOWN] == userRoles[1..MAX_ROLES_SHOWN + 1]
      && roles[MAX_ROLES_SHOWN..] == [MoreMarker(|userRoles[MAX_ROLES_SHOWN + 1..]|)]
    ensures |roles| <= MAX_ROLES_SHOWN + 1
    ensures field.Some? ==>
      && roles != []
      && field.value == Field(RolesTitle(|userRoles| - 1), Join(roles, " "))
  {
    roles := [];
    field := None;
    if |userRoles| > 1 {
      roles := userRoles[1..];
      if |roles| > MAX_ROLES_SHOWN {
        roles := roles[..MAX_ROLES_SHOWN] + [MoreMarker(|userRoles| - 11)];
      }
      var value := if roles != [] then Join(roles, " ") else NO_ROLES;
      field := Some(Field(RolesTitle(|userRoles| - 1), value));
    }
  }

  /** The key-permissions list of bot.py:1134-1147, built by successive
      appends, and the field of bot.py:1149-1152 showing its first five names. */
  method KeyPermissionsField(p: Permissions) returns (keyPerms: seq<string>, field: Option<Field>)
    ensures keyPerms == Selected(KEY_PERM_NAMES, Flags(p))
    ensures field.Some? <==> keyPerms != []
    ensures field.Some? ==> field.value == Field(KEY_PERMS_TITLE, Join(Take(keyPerms, MAX_KEY_PERMS_SHOWN), ", "))
  {
    ghost var n := KEY_PERM_NAMES;
    keyPerms := [];
    if p.administrator {
      keyPerms := keyPerms + ["Administrator"];
    }
    assert keyPerms == Granted(p.administrator, n[0]);
    if p.manageGuild {
      keyPerms := keyPerms + ["Manage Server"];
    }
    assert keyPerms == Granted(p.administrator, n[0]) + Granted(p.manageGuild, n[1]);
    if p.manageChannels {
      keyPerms := keyPerms + ["Manage Channels"];
    }
    assert keyPerms == Granted(p.administrator, n[0]) + Granted(p.manageGuild, n[1])
      + Granted(p.manageChannels, n[2]);
    if p.manageMessages {
      keyPerms := keyPerms + ["Manage Messages"];
    }
    assert keyPerms == Granted(p.administrator, n[0]) + Granted(p.manageGuild, n[1])
      + Granted(p.manageChannels, n[2]) + Granted(p.manageMessages, n[3]);
    if p.kickMembers {
      keyPerms := keyPerms + ["Kick Members"];
    }
    assert keyPerms == Granted(p.administrator, n[0]) + Granted(p.manageGuild, n[1])
      + Granted(p.manageChannels, n[2]) + Granted(p.manageMessages, n[3]) + Granted(p.kickMembers, n[4]);
    if p.banMembers {
      keyPerms := keyPerms + ["Ban Members"];
    }
    SelectedSix(n, Flags(p));
    field := None;
    if keyPerms != [] {
      field := Some(Field(KEY_PERMS_TITLE, Join(Take(keyPerms, MAX_KEY_PERMS_SHOWN), ", ")));
    }
  }

  /** `Selected` over six names, written out as six successive appends. */
  lemma SelectedSix(n: seq<string>, f: seq<bool>)
    requires |n| == 6 == |f|
    ensures Selected(n, f) ==
      Granted(f[0], n[0]) + Granted(f[1], n[1]) + Granted(f[2], n[2])
      + Granted(f[3], n[3]) + Granted(f[4], n[4]) + Granted(f[5], n[5])
  {
    SelectedPrefixStep(n, f, 0);
    assert [] + Granted(f[0], n[0]) == Granted(f[0], n[0]);
    SelectedPrefixStep(n, f, 1);
    SelectedPrefixStep(n, f, 2);
    SelectedPrefixStep(n, f, 3);
    SelectedPrefixStep(n, f, 4);
    SelectedPrefixStep(n, f, 5);
    assert n[..6] == n && f[..6] == f;
  }

  /** Selecting over a prefix one element longer appends at most that element. */
  lemma SelectedPrefixStep(names: seq<string>, flags: seq<bool>, k: nat)
    requires |names| == |flags| && k < |names|
    ensures Selected(names[..k + 1], flags[..k + 1]) ==
      Selected(names[..k], flags[..k]) + Granted(flags[k], names[k])
  {
    assert names[..k + 1][..k] == names[..k] && flags[..k + 1][..k] == flags[..k];
  }

  // ---------------------------------------------------------------------
  // Properties
  // ---------------------------------------------------------------------

  /** A name is listed exactly when its flag is set. */
  lemma {:induction false} SelectedMembers(names: seq<string>, flags: seq<bool>, x: string)
    requires |names| == |flags|
    ensures x in Selected(names, flags) <==> exists i :: 0 <= i < |names| && flags[i] && names[i] == x
  {
    if names != [] {
      var m := |names| - 1;
      var front, frontFlags := names[..m], flags[..m];
      SelectedMembers(front, frontFlags, x);
      if exists i :: 0 <= i < |names| && flags[i] && names[i] == x {
        var i :| 0 <= i < |names| && flags[i] && names[i] == x;
        if i < m {
          assert frontFlags[i] && front[i] == x;
        }
      }
      if x in Selected(front, frontFlags) {
        var i :| 0 <= i < m && frontFlags[i] && front[i] == x;
        assert flags[i] && names[i] == x;
      }
    }
  }

  /** The listed names keep the order of the source. */
  lemma {:induction false} SelectedIsSubsequence(names: seq<string>, flags: seq<bool>)
    requires |names| == |flags|
    ensures IsSubsequence(Selected(names, flags), names)
  {
    if names != [] {
      var m := |names| - 1;
      SelectedIsSubsequence(names[..m], flags[..m]);
      var front := Selected(names[..m], flags[..m]);
      if flags[m] {
        var r := front + [names[m]];
        assert r[..|r| - 1] == front;
      } else {
        assert front + [] == front;
        if front != [] {
          assert IsSubsequence(front, names[..m]);
        }
      }
    }
  }

  /** The handler's list, written out over the six flags. */
  lemma KeyPermsWrittenOut(p: Permissions)
    ensures Selected(KEY_PERM_NAMES, Flags(p)) ==
      Granted(p.administrator, "Administrator") + Granted(p.manageGuild, "Manage Server")
      + Granted(p.manageChannels, "Manage Channels") + Granted(p.manageMessages, "Manage Messages")
      + Granted(p.kickMembers, "Kick Members") + Granted(p.banMembers, "Ban Members")
  {
    SelectedSix(KEY_PERM_NAMES, Flags(p));
  }

  /** Each key permission is listed exactly when its flag is set. */
  lemma KeyPermListedIffFlag(p: Permissions, i: nat)
    requires i < |KEY_PERM_NAMES|
    ensures KEY_PERM_NAMES[i] in Selected(KEY_PERM_NAMES, Flags(p)) <==> Flags(p)[i]
  {
    SelectedMembers(KEY_PERM_NAMES, Flags(p), KEY_PERM_NAMES[i]);
  }

  /** The key-permissions field is added exactly when at least one flag is set. */
  lemma KeyPermsFieldIffAnyFlag(p: Permissions)
    ensures Selected(KEY_PERM_NAMES, Flags(p)) != [] <==>
      (p.administrator || p.manageGuild || p.manageChannels || p.manageMessages || p.kickMembers || p.banMembers)
  {
    KeyPermsWrittenOut(p);
  }

  /** With all six flags set only five names fit: "Ban Members" is dropped. */
  lemma AllKeyPermsDropsBan(p: Permissions)
    requires p == Permissions(true, true, true, true, true, true)
    ensures Take(Selected(KEY_PERM_NAMES, Flags(p)), MAX_KEY_PERMS_SHOWN) == KEY_PERM_NAMES[..5]
    ensures "Ban Members" !in Take(Selected(KEY_PERM_NAMES, Flags(p)), MAX_KEY_PERMS_SHOWN)
  {
    KeyPermsWrittenOut(p);
    assert Selected(KEY_PERM_NAMES, Flags(p)) == KEY_PERM_NAMES;
  }

  /** When fewer than six flags are set, every listed name is shown. */
  lemma FewKeyPermsAllShown(p: Permissions)
    requires !(p.administrator && p.manageGuild && p.manageChannels && p.manageMessages && p.kickMembers && p.banMembers)
    ensures Take(Selected(KEY_PERM_NAMES, Flags(p)), MAX_KEY_PERMS_SHOWN) == Selected(KEY_PERM_NAMES, Flags(p))
  {
    KeyPermsWrittenOut(p);
  }

  /** The marker's count is the number of roles left out, and it reads back as that number. */
  lemma MarkerCountsOmitted(userRoles: seq<string>)
    requires |userRoles| > MAX_ROLES_SHOWN + 1
    ensures var omitted := userRoles[MAX_ROLES_SHOWN + 1..];
      && |omitted| == |userRoles| - 11
      && userRoles == userRoles[..1] + userRoles[1..MAX_ROLES_SHOWN + 1] + omitted
      && ParseDigits(NatToString(|omitted|)) == |userRoles| - 11
  {
    NatToStringRoundTrip(|userRoles| - 11);
  }

  /** The number in the title reads back as the count of roles besides
      `@everyone`, not the count of entries shown: once more than eleven are
      left after `@everyone`, it exceeds the eleven entries of the field. */
  lemma RolesTitleCountsAllRoles(userRoles: seq<string>)
    requires |userRoles| > 1
    ensures var t := RolesTitle(|userRoles| - 1);
      var digits := t[|ROLES_TITLE_PREFIX|..|t| - 1];
      && (forall i :: 0 <= i < |digits| ==> IsDigit(digits[i]))
      && ParseDigits(digits) == |userRoles[1..]|
      && (|userRoles[1..]| > MAX_ROLES_SHOWN + 1 ==> ParseDigits(digits) > MAX_ROLES_SHOWN + 1)
  {
    var t := RolesTitle(|userRoles| - 1);
    assert t[|ROLES_TITLE_PREFIX|..|t| - 1] == NatToString(|userRoles| - 1);
    NatToStringRoundTrip(|userRoles| - 1);
  }
}
