/** The address display of the frontend (`ContractAddress`): an address that is not `0x`
    and 40 hex digits is refused; a valid one is shown either as a shortened link to the
    explorer's page for the address or, when the link is switched off, in full. */
module ContractAddress {
  import opened Wrappers
  import opened Strings
  import Blockchain

  const InvalidAddressText := "Invalid address"

  /** The explorer page for an address. */
  const ExplorerAddressBase := "https://sepolia.basescan.org/address/"

  /** What the component renders: the error text, a link with its target and its text, or
      the address as plain text. */
  datatype Display =
    | InvalidAddress(message: string)
    | ExplorerLink(href: string, text: string)
    | PlainAddress(text: string)

  /** `ContractAddress({ address, showExplorerLink })`. `None` stands for a missing (or
      null) property; a missing `showExplorerLink` takes the default `true`. */
  function Render(address: Option<string>, showExplorerLink: Option<bool>): (r: Display)
    ensures r.InvalidAddress? <==> address.None? || !Blockchain.IsValidAddress(address.value)
    ensures r.InvalidAddress? ==> r.message == "Invalid address"
    ensures r.ExplorerLink? <==> !r.InvalidAddress? && showExplorerLink != Some(false)
  {
    if address.None? || address.value == "" || !Blockchain.IsValidAddress(address.value) then
      InvalidAddress(InvalidAddressText)
    else if showExplorerLink.GetOr(true) then
      ExplorerLink(ExplorerAddressBase + address.value, ShortForm(address.value))
    else PlainAddress(address.value)
  }

  /** The link goes to the explorer's address page, the same page the agent's messages
      link to, and its text is the first six and the last four characters of the address
      around an ellipsis. Without the link the whole address is shown. */
  lemma ShownAddress(address: string, showExplorerLink: Option<bool>)
    requires Blockchain.IsValidAddress(address)
    ensures var r := Render(Some(address), showExplorerLink);
      match r
      case ExplorerLink(href, text) =>
        href == Blockchain.GenerateBaseScanLink(address, Blockchain.AddressLink) &&
        |text| == 13 && text[..6] == address[..6] && text[6..9] == "..." && text[9..] == address[38..]
      case PlainAddress(text) => text == address && showExplorerLink == Some(false)
      case InvalidAddress(_) => false
  {
    var r := Render(Some(address), showExplorerLink);
    if r.ExplorerLink? {
      ExplorerBaseIsAddressLink();
      AppendAssoc(Blockchain.BaseScanUrl, "/address/", address);
    }
  }

  lemma ExplorerBaseIsAddressLink()
    ensures ExplorerAddressBase == Blockchain.BaseScanUrl + "/address/"
  {
  }

  /** The link names its address: two valid addresses shown as links have the same target
      only when they are the same address. */
  lemma {:induction false} LinkDeterminesAddress(a: string, b: string)
    requires Blockchain.IsValidAddress(a) && Blockchain.IsValidAddress(b)
    requires Render(Some(a), None).href == Render(Some(b), None).href
    ensures a == b
  {
    AfterPrefix(ExplorerAddressBase, a);
    AfterPrefix(ExplorerAddressBase, b);
  }
}
