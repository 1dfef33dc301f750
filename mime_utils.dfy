/** Mimetype helpers of the browser client (public/scripts/mime_utils.js). The icon
    table, which the client gets from a Handlebars helper, is a parameter. */
module MimeUtils {
  import opened Strings
  import opened JsValues

  const NoMimeIcon: string := "/images/icons/no-mime-icon.png"

  /** An entry of the icon table: the category's default icon and, optionally, an icon per subtype. */
  datatype Category = Category(base: string, content: Option<map<string, string>>)

  type IconTable = map<string, Category>

  /** `is_valid`; `None` is `null` or `undefined`. */
  function IsValid(mimetype: Option<string>): (r: bool)
    ensures r <==> mimetype.Some? && mimetype.value !in {"", "undefined", "null"}
  {
    if mimetype.None? || mimetype.value == "" then false
    else if mimetype.value == "undefined" || mimetype.value == "null" then false
    else true
  }

  /** `does_mimetype_has_thumbnail`: a valid mimetype whose text before the first `/` is `video` or `image`. */
  function HasThumbnail(mimetype: Option<string>): (r: bool)
    ensures r ==> IsValid(mimetype)
  {
    if !IsValid(mimetype) then false
    else
      var begin := Split(mimetype.value, '/')[0];
      begin == "video" || begin == "image"
  }

  /** A mimetype has a thumbnail exactly when it is `image` or `video`, alone or followed by `/`. */
  lemma HasThumbnailIff(mimetype: Option<string>)
    ensures HasThumbnail(mimetype) <==>
              mimetype.Some? &&
              (mimetype.value == "image" || mimetype.value == "video" ||
               IsPrefix("image/", mimetype.value) || IsPrefix("video/", mimetype.value))
  {
    if mimetype.Some? {
      var m := mimetype.value;
      assert "image" + "/" == "image/" && "video" + "/" == "video/";
      HeadIs(m, "image");
      HeadIs(m, "video");
      if IsPrefix("image/", m) || IsPrefix("video/", m) {
        assert m[0] == 'i' || m[0] == 'v';
      }
    }
  }

  /** The text before the first `/` is `x` exactly when the string is `x` or starts with `x/`. */
  lemma HeadIs(m: string, x: string)
    requires '/' !in x
    ensures Split(m, '/')[0] == x <==> m == x || IsPrefix(x + "/", m)
  {
    SplitHead(m, '/');
    var begin := Split(m, '/')[0];
    if begin == x && |begin| < |m| {
      assert m[..|begin| + 1] == begin + "/";
    }
    if m == x {
      SplitNone(m, '/');
    } else if IsPrefix(x + "/", m) {
      SplitPrefix(x, m);
    }
  }

  /** A string that starts with `x/`, where `x` has no `/`, splits on `/` into `x` first. */
  lemma SplitPrefix(x: string, m: string)
    requires '/' !in x && IsPrefix(x + "/", m)
    ensures Split(m, '/')[0] == x
  {
    var rest := m[|x| + 1..];
    assert m == x + ['/'] + rest;
    SplitCons(x, '/', rest);
  }

  /** `get_mime_icon_path`. A mimetype without `/` has `undefined` as its subtype, which
      JavaScript turns into the property name "undefined". */
  function IconPath(mimetype: Option<string>, icons: IconTable): (r: string)
    ensures !IsValid(mimetype) ==> r == NoMimeIcon
    ensures icons == map[] ==> r == NoMimeIcon
  {
    if !IsValid(mimetype) then NoMimeIcon
    else
      var parts := Split(mimetype.value, '/');
      var left := parts[0];
      var right := if |parts| >= 2 then parts[1] else "undefined";
      if left !in icons then NoMimeIcon
      else
        var category := icons[left];
        if category.content.Some? then
          if right in category.content.value && category.content.value[right] != "" then
            category.content.value[right]
          else category.base
        else category.base
  }

  /** The icon is always the no-mime icon, the base icon of a category, or a subtype icon of a category. */
  lemma IconPathOrigin(mimetype: Option<string>, icons: IconTable)
    ensures var r := IconPath(mimetype, icons);
            r == NoMimeIcon ||
            (exists c :: c in icons && r == icons[c].base) ||
            (exists c :: c in icons && icons[c].content.Some? && r in icons[c].content.value.Values)
  {
    if IsValid(mimetype) {
      var left := Split(mimetype.value, '/')[0];
      if left in icons {
        var r := IconPath(mimetype, icons);
        if r != icons[left].base {
          assert icons[left].content.Some?;
          var parts := Split(mimetype.value, '/');
          var right := if |parts| >= 2 then parts[1] else "undefined";
          assert icons[left].content.value[right] == r;
        }
      }
    }
  }

  /** An invalid mimetype, or one whose category is not in the table, gets the no-mime icon. */
  lemma IconPathUnknown(mimetype: Option<string>, icons: IconTable)
    requires !IsValid(mimetype) || Split(mimetype.value, '/')[0] !in icons
    ensures IconPath(mimetype, icons) == NoMimeIcon
  {
  }

  /** For `category/subtype`, the subtype's icon when the category lists one, else the category base. */
  lemma IconPathKnown(category: string, subtype: string, icons: IconTable)
    requires '/' !in category && '/' !in subtype && category != ""
    requires category in icons
    ensures var r := IconPath(Some(category + "/" + subtype), icons);
            var c := icons[category];
            if c.content.Some? && subtype in c.content.value && c.content.value[subtype] != ""
            then r == c.content.value[subtype]
            else r == c.base
  {
    var m := category + "/" + subtype;
    assert m !in {"", "undefined", "null"} by {
      assert m[|category|] == '/';
    }
    SplitJoin([category, subtype], '/');
    assert Join([category, subtype], '/') == m;
  }

  /** A valid mimetype with no `/` looks its category up under the subtype name "undefined". */
  lemma IconPathNoSubtype(mimetype: string, icons: IconTable)
    requires '/' !in mimetype && IsValid(Some(mimetype)) && mimetype in icons
    requires icons[mimetype].content.Some?
    ensures var c := icons[mimetype];
            IconPath(Some(mimetype), icons) ==
              if "undefined" in c.content.value && c.content.value["undefined"] != ""
              then c.content.value["undefined"] else c.base
  {
    SplitNone(mimetype, '/');
  }
}
