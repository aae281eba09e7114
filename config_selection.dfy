/**
 * The selection option a dropdown is bound to: a caption, an enabled flag, an
 * ordered list of choices and the index of the chosen one. The host owns it;
 * the dropdown holds a reference and writes only the selected index.
 */
module ConfigSelection {
  import opened Wrappers

  /** One entry of the list: its text and its optional hover help. */
  datatype Choice = Choice(text: string, hoverText: Option<string>)

  class Selection {
    var caption: string
    var enabled: bool
    var selectedIndex: int
    var choices: seq<Choice>

    constructor (caption: string, enabled: bool, selectedIndex: int, choices: seq<Choice>)
      ensures this.caption == caption && this.enabled == enabled
      ensures this.selectedIndex == selectedIndex && this.choices == choices
    {
      this.caption := caption;
      this.enabled := enabled;
      this.selectedIndex := selectedIndex;
      this.choices := choices;
    }
  }
}
