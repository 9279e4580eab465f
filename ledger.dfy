/** Values shared by the recon phase, which writes the channel ledger
    (slackr_channels.db), and the archiver phase, which reads it. */
module Ledger {

  /** Ruby's nil, made explicit. */
  datatype Option<+T> = None | Some(value: T)

  /** A point in time, in whole seconds since the Unix epoch. */
  type Instant = int

  /** One ledger row: channel_name, channel_id, channel_last_active_date. */
  datatype ChannelRow = ChannelRow(name: string, id: string, lastActive: Instant)
}
