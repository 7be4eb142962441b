/** The navigation sidebar (src/components/AppSidebar.tsx): a fixed list of
    menu items, each with the roles that may see it, filtered by the signed-in
    user's role, and the highlight of the item whose URL is the current path. */
module Sidebar {
  import opened Common

  datatype MenuItem = MenuItem(title: string, url: string, roles: seq<Role>)

  /** `menuItems`, in display order. */
  const MenuItems: seq<MenuItem> := [
    MenuItem("Dashboard", "/", [Admin, Operator, Role.User]),
    MenuItem("Arquivos", "/files", [Admin, Operator, Role.User]),
    MenuItem("Usuários", "/users", [Admin, Operator]),
    MenuItem("Grupos", "/groups", [Admin, Operator]),
    MenuItem("Categorias", "/categories", [Admin, Operator]),
    MenuItem("Downloads", "/downloads", [Admin]),
    MenuItem("Relatórios", "/reports", [Admin]),
    MenuItem("Logs de Acesso", "/access-logs", [Admin]),
    MenuItem("Configurações", "/settings", [Admin, Operator]),
    MenuItem("Meu Perfil", "/profile", [Admin, Operator, Role.User])
  ]

  /** `user?.role || 'user'`: no signed-in user, or no role, counts as `user`. */
  function EffectiveRole(role: Option<Role>): (r: Role)
    ensures role.Some? ==> r == role.value
    ensures role.None? ==> r == Role.User
  {
    if role.Some? then role.value else Role.User
  }

  /** `items.filter(item => item.roles.includes(role))`. */
  function ItemsWithRole(items: seq<MenuItem>, role: Role): seq<MenuItem> {
    if items == [] then []
    else (if role in items[0].roles then [items[0]] else []) + ItemsWithRole(items[1..], role)
  }

  /** The filter keeps exactly the items open to `role`, in their order. */
  lemma {:induction false} ItemsWithRoleSpec(items: seq<MenuItem>, role: Role)
    ensures IsSubsequence(ItemsWithRole(items, role), items)
    ensures forall it :: it in ItemsWithRole(items, role) <==> it in items && role in it.roles
  {
    if items != [] {
      ItemsWithRoleSpec(items[1..], role);
      var rest := ItemsWithRole(items[1..], role);
      assert items == [items[0]] + items[1..];
      if role in items[0].roles {
        assert ([items[0]] + rest)[1..] == rest;
      } else {
        assert ItemsWithRole(items, role) == rest;
        SubsequenceSkip(rest, items[1..], items[0]);
      }
    }
  }

  /** `filteredItems`. */
  function ShownItems(role: Option<Role>): seq<MenuItem> {
    ItemsWithRole(MenuItems, EffectiveRole(role))
  }

  /** When every item open to `r1` is also open to `r2`, the items shown to
      `r1` are a subsequence of those shown to `r2`. */
  lemma {:induction false} ShownNested(items: seq<MenuItem>, r1: Role, r2: Role)
    requires forall i :: 0 <= i < |items| && r1 in items[i].roles ==> r2 in items[i].roles
    ensures IsSubsequence(ItemsWithRole(items, r1), ItemsWithRole(items, r2))
  {
    if items != [] {
      ShownNested(items[1..], r1, r2);
      var a, b := ItemsWithRole(items[1..], r1), ItemsWithRole(items[1..], r2);
      if r1 in items[0].roles {
        assert ([items[0]] + a)[1..] == a && ([items[0]] + b)[1..] == b;
      } else if r2 in items[0].roles {
        assert ItemsWithRole(items, r1) == a && ItemsWithRole(items, r2) == [items[0]] + b;
        SubsequenceSkip(a, b, items[0]);
      } else {
        assert ItemsWithRole(items, r1) == a && ItemsWithRole(items, r2) == b;
      }
    }
  }

  /** Item by item, the roles of `menuItems` nest: `user` ⊆ `operator` ⊆ `admin`. */
  lemma MenuRolesNest(i: nat)
    requires i < |MenuItems|
    ensures Role.User in MenuItems[i].roles ==> Operator in MenuItems[i].roles
    ensures Operator in MenuItems[i].roles ==> Admin in MenuItems[i].roles
    ensures Admin in MenuItems[i].roles
  {
    var roles := MenuItems[i].roles;
    assert roles == [Admin, Operator, Role.User] || roles == [Admin, Operator] || roles == [Admin];
  }

  /** The menus nest by role: what `user` sees `operator` sees, and what
      `operator` sees `admin` sees, each in the same order. */
  lemma MenusNestByRole()
    ensures IsSubsequence(ShownItems(Some(Role.User)), ShownItems(Some(Operator)))
    ensures IsSubsequence(ShownItems(Some(Operator)), ShownItems(Some(Admin)))
  {
    forall i | 0 <= i < |MenuItems|
      ensures (Role.User in MenuItems[i].roles ==> Operator in MenuItems[i].roles)
              && (Operator in MenuItems[i].roles ==> Admin in MenuItems[i].roles)
    {
      MenuRolesNest(i);
    }
    ShownNested(MenuItems, Role.User, Operator);
    ShownNested(MenuItems, Operator, Admin);
  }

  /** Every item lists `admin`, so the filter keeps the whole list. */
  lemma {:induction false} AllKept(items: seq<MenuItem>, role: Role)
    requires forall i :: 0 <= i < |items| ==> role in items[i].roles
    ensures ItemsWithRole(items, role) == items
  {
    if items != [] {
      AllKept(items[1..], role);
      assert items == [items[0]] + items[1..];
    }
  }

  /** `admin` sees all ten items, in order. */
  lemma AdminSeesEverything()
    ensures ShownItems(Some(Admin)) == MenuItems && |MenuItems| == 10
  {
    forall i | 0 <= i < |MenuItems| ensures Admin in MenuItems[i].roles {
      MenuRolesNest(i);
    }
    AllKept(MenuItems, Admin);
  }

  /** One step of the filter over a suffix of the list. */
  lemma FilterStep(items: seq<MenuItem>, k: nat, role: Role)
    requires k < |items|
    ensures ItemsWithRole(items[k..], role)
            == (if role in items[k].roles then [items[k]] else []) + ItemsWithRole(items[k + 1..], role)
  {
    assert items[k..][1..] == items[k + 1..];
  }

  /** Of the last two items only Meu Perfil is open to `user`. */
  lemma UserMenuFrom8()
    ensures ItemsWithRole(MenuItems[8..], Role.User) == [MenuItems[9]]
  {
    var m := MenuItems;
    assert m[10..] == [];
    FilterStep(m, 9, Role.User);
    FilterStep(m, 8, Role.User);
  }

  /** Downloads, Relatórios and Logs de Acesso are not open to `user`. */
  lemma UserMenuFrom5()
    ensures ItemsWithRole(MenuItems[5..], Role.User) == [MenuItems[9]]
  {
    var m := MenuItems;
    UserMenuFrom8();
    FilterStep(m, 7, Role.User);
    FilterStep(m, 6, Role.User);
    FilterStep(m, 5, Role.User);
  }

  /** Usuários, Grupos and Categorias are not open to `user`. */
  lemma UserMenuFrom2()
    ensures ItemsWithRole(MenuItems[2..], Role.User) == [MenuItems[9]]
  {
    var m := MenuItems;
    UserMenuFrom5();
    FilterStep(m, 4, Role.User);
    FilterStep(m, 3, Role.User);
    FilterStep(m, 2, Role.User);
  }

  /** Arquivos is open to `user`. */
  lemma UserMenuFrom1()
    ensures ItemsWithRole(MenuItems[1..], Role.User) == [MenuItems[1], MenuItems[9]]
  {
    UserMenuFrom2();
    FilterStep(MenuItems, 1, Role.User);
  }

  /** Dashboard is open to `user`. */
  lemma UserItems()
    ensures ItemsWithRole(MenuItems, Role.User) == [MenuItems[0], MenuItems[1], MenuItems[9]]
  {
    var m := MenuItems;
    assert m[0].roles == [Admin, Operator, Role.User];
    UserMenuFrom1();
    assert ItemsWithRole(m, Role.User) == [m[0]] + ItemsWithRole(m[1..], Role.User);
  }

  /** `user`, and a page with no role, see exactly Dashboard, Arquivos and
      Meu Perfil. */
  lemma UserMenu()
    ensures ShownItems(Some(Role.User)) == [MenuItems[0], MenuItems[1], MenuItems[9]]
    ensures ShownItems(None) == ShownItems(Some(Role.User))
  {
    UserItems();
  }

  /** The URLs of a list of items. */
  function Urls(items: seq<MenuItem>): (r: seq<string>)
    ensures |r| == |items|
    ensures forall i :: 0 <= i < |items| ==> r[i] == items[i].url
  {
    if items == [] then [] else [items[0].url] + Urls(items[1..])
  }

  /** `isActive(path)`: the current path is exactly `path`. The component
      declares this helper but never calls it: the highlight comes from
      `NavLink` with `end`, whose own match compares the whole path with the
      item's URL but ignores case and one trailing slash. Every menu URL is
      lower case without a trailing slash, so two of them that both match one
      path under that looser comparison are still equal; this exact
      comparison stands for it in `AtMostOneActive`. */
  predicate IsActive(currentPath: string, path: string) {
    currentPath == path
  }

  /** The length and second character of a URL, as one number: length times
      1000 plus the character's code (0 for a one-character URL). Two URLs
      with different keys differ, so the ten menu URLs can be told apart by
      comparing ten numbers instead of forty-five pairs of strings. Each key
      below can be checked against the list by hand: "/files" has six
      characters and `f` (102) second, hence 6102. */
  function UrlKey(url: string): int {
    |url| * 1000 + (if |url| > 1 then url[1] as int else 0)
  }

  /** `UrlKey` of each menu URL, in menu order. */
  const MenuUrlKeys: seq<int> := [1000, 6102, 6117, 7103, 11099, 10100, 8114, 12097, 9115, 8112]

  lemma MenuUrlKey(i: nat)
    requires i < |MenuItems|
    ensures UrlKey(MenuItems[i].url) == MenuUrlKeys[i]
  {
    var url := MenuItems[i].url;
    assert url == "/" || url == "/files" || url == "/users" || url == "/groups" || url == "/categories"
           || url == "/downloads" || url == "/reports" || url == "/access-logs" || url == "/settings"
           || url == "/profile";
  }

  lemma MenuUrlKeysDistinct()
    ensures Distinct(MenuUrlKeys)
  {
  }

  /** Items whose URL keys are distinct have distinct URLs. */
  lemma DistinctKeysDistinctUrls(items: seq<MenuItem>, keys: seq<int>)
    requires |keys| == |items| && Distinct(keys)
    requires forall i :: 0 <= i < |items| ==> UrlKey(items[i].url) == keys[i]
    ensures Distinct(Urls(items))
  {
    var u := Urls(items);
    forall i, j | 0 <= i < j < |u| ensures u[i] != u[j] {
      assert UrlKey(u[i]) != UrlKey(u[j]);
    }
  }

  /** No two menu items share a URL. */
  lemma MenuUrlsDistinct()
    ensures Distinct(Urls(MenuItems))
  {
    MenuUrlKeysDistinct();
    forall i | 0 <= i < |MenuItems| ensures UrlKey(MenuItems[i].url) == MenuUrlKeys[i] {
      MenuUrlKey(i);
    }
    DistinctKeysDistinctUrls(MenuItems, MenuUrlKeys);
  }

  /** A subsequence of items with distinct URLs has distinct URLs. */
  lemma {:induction false} DistinctUrlsKept(xs: seq<MenuItem>, ys: seq<MenuItem>)
    requires IsSubsequence(xs, ys) && Distinct(Urls(ys))
    ensures Distinct(Urls(xs))
    decreases |ys|
  {
    if xs != [] && ys != [] {
      var uy := Urls(ys);
      assert Distinct(Urls(ys[1..])) by {
        forall i, j | 0 <= i < j < |ys| - 1 ensures Urls(ys[1..])[i] != Urls(ys[1..])[j] {
          assert uy[i + 1] != uy[j + 1];
        }
      }
      if xs[0] == ys[0] {
        DistinctUrlsKept(xs[1..], ys[1..]);
        SubsequenceMembers(xs[1..], ys[1..]);
        forall j | 0 < j < |xs| ensures Urls(xs)[0] != Urls(xs)[j] {
          assert xs[1..][j - 1] == xs[j];
          assert xs[j] in ys[1..];
          var k :| 0 <= k < |ys[1..]| && ys[1..][k] == xs[j];
          assert uy[0] != uy[k + 1];
        }
        forall i, j | 0 < i < j < |xs| ensures Urls(xs)[i] != Urls(xs)[j] {
          assert Urls(xs[1..])[i - 1] != Urls(xs[1..])[j - 1];
        }
      } else {
        DistinctUrlsKept(xs, ys[1..]);
      }
    }
  }

  /** At most one shown item is highlighted, whatever the path and role:
      the menu's URLs are distinct. The argument holds for any whole-path
      match under which distinct menu URLs stay distinct, which includes the
      case-insensitive, trailing-slash-tolerant match of `NavLink` with `end`
      (see `IsActive`). */
  lemma AtMostOneActive(role: Option<Role>, currentPath: string, i: nat, j: nat)
    requires i < |ShownItems(role)| && j < |ShownItems(role)|
    requires IsActive(currentPath, ShownItems(role)[i].url) && IsActive(currentPath, ShownItems(role)[j].url)
    ensures i == j
  {
    var shown := ShownItems(role);
    MenuUrlsDistinct();
    ItemsWithRoleSpec(MenuItems, EffectiveRole(role));
    DistinctUrlsKept(shown, MenuItems);
  }
}
