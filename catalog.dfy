/** The fixed, read-only list of links the bot advertises, in rotation order. */
module Catalog {
  const LinksToShare: seq<string> := ["https://whattssapy.shop/", "https://whatsapp.chatinvite.shop/"]
}
