/** `parseStyleHtml` for font size and font family: when pasted HTML is
    turned into text nodes, a `font-size` / `font-family` style value is
    copied onto the text node only if it is non-empty and one of the values
    the corresponding menu is configured with. The style strings are read
    from the DOM by the caller and given here as plain inputs (the empty
    string when the style is absent). */
module FontStyle {
  import opened Options
  import opened Document

  /** The `fontSizeList` of the `fontSize` menu config and the
      `fontFamilyList` of the `fontFamily` one; `None` when the field is absent. */
  datatype MenuConfig = MenuConfig(fontSizeList: Option<seq<string>>, fontFamilyList: Option<seq<string>>)

  /** `value && list.includes(value)`, with an absent list read as `[]`. */
  predicate Allowed(value: string, list: Option<seq<string>>) {
    value != "" && value in list.GetOr([])
  }

  /** The attribute after the filter: the style value when allowed, the old attribute otherwise. */
  function Filtered(value: string, list: Option<seq<string>>, current: Option<string>): (r: Option<string>)
    ensures r == Some(value) || r == current
    ensures r != current ==> value != "" && list.Some? && value in list.value
    ensures Allowed(value, list) ==> r == Some(value)
    ensures !Allowed(value, list) ==> r == current
  {
    if Allowed(value, list) then Some(value) else current
  }

  function ParseStyleHtml(fontSize: string, fontFamily: string, node: Node, config: MenuConfig): (r: Node)
    ensures !node.Text? ==> r == node
    ensures node.Text? ==> r.Text? && r.text == node.text && r.marks == node.marks
    ensures node.Text? && Allowed(fontSize, config.fontSizeList) ==> r.fontSize == Some(fontSize)
    ensures node.Text? && !Allowed(fontSize, config.fontSizeList) ==> r.fontSize == node.fontSize
    ensures node.Text? && Allowed(fontFamily, config.fontFamilyList) ==> r.fontFamily == Some(fontFamily)
    ensures node.Text? && !Allowed(fontFamily, config.fontFamilyList) ==> r.fontFamily == node.fontFamily
  {
    match node
    case Element(_, _, _, _) => node
    case Text(t, size, family, marks) =>
      var sized := Text(t, Filtered(fontSize, config.fontSizeList, size), family, marks);
      sized.(fontFamily := Filtered(fontFamily, config.fontFamilyList, family))
  }

  /** A value that was copied is one the menu offers; without a configured
      list nothing is ever copied. */
  lemma ParseStyleHtmlOnlyAllowed(fontSize: string, fontFamily: string, node: Node, config: MenuConfig)
    requires node.Text?
    ensures var r := ParseStyleHtml(fontSize, fontFamily, node, config);
      && (r.fontSize != node.fontSize ==> config.fontSizeList.Some? && r.fontSize.value in config.fontSizeList.value)
      && (r.fontFamily != node.fontFamily ==> config.fontFamilyList.Some? && r.fontFamily.value in config.fontFamilyList.value)
      && (config.fontSizeList.None? ==> r.fontSize == node.fontSize)
      && (config.fontFamilyList.None? ==> r.fontFamily == node.fontFamily)
  {
  }

  /** Running the filter twice with the same style values and config gives the same node as once. */
  lemma ParseStyleHtmlIdempotent(fontSize: string, fontFamily: string, node: Node, config: MenuConfig)
    ensures var once := ParseStyleHtml(fontSize, fontFamily, node, config);
      ParseStyleHtml(fontSize, fontFamily, once, config) == once
  {
  }
}
