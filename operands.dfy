/**
 * Plugin references and the resolution of an operand `theme.plugin` or
 * `plugin` to a (theme, plugin) pair (step 1.3 of the algorithm).
 */
module Operands {
  import opened Text

  /**
   * A plugin qualified by its theme, or one of the two anchors. `Head` and
   * `Tail` stand for a missing left and a missing right operand; being
   * constructors of their own, they equal no real (theme, plugin) pair.
   */
  datatype PluginRef = Head | Tail | Plugin(theme: string, name: string)

  /**
   * The plugin an operand names. Text with a `.` is split at its first dot
   * into theme and plugin; text without one is a plugin of `defaultTheme`,
   * the theme of the directory the relations were loaded from.
   */
  function Resolve(text: string, defaultTheme: string): (r: PluginRef)
    ensures r.Plugin?
    ensures '.' !in text ==> r == Plugin(defaultTheme, text)
    ensures '.' in text ==> '.' !in r.theme && r.theme + "." + r.name == text
  {
    var i := IndexOf(text, '.');
    if i == |text| then
      assert text[..i] == text;
      Plugin(defaultTheme, text)
    else
      assert text == text[..i] + "." + text[i + 1..];
      Plugin(text[..i], text[i + 1..])
  }

  /** Resolving `theme.plugin` gives back the pair, whatever the default theme. */
  lemma QualifiedOperandRoundTrip(theme: string, plugin: string, defaultTheme: string)
    requires '.' !in theme
    ensures Resolve(theme + "." + plugin, defaultTheme) == Plugin(theme, plugin)
  {
    var s := theme + "." + plugin;
    IndexOfAfterPrefix(theme, '.', plugin);
    assert s[..|theme|] == theme && s[|theme| + 1..] == plugin;
  }
}
