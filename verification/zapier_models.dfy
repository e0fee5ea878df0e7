/**
  The record types of the Zapier membership service: its configuration, the
  webhook payload Zapier posts, a row of the `members` table and the counters
  reported by the statistics endpoint.
 */
module ZapierModels {
  import opened Wrappers

  /** A point in time, in whatever unit the database clock uses. */
  type Timestamp = int

  datatype Config = Config(databaseUrl: string, port: string, webhookSecret: string)

  /** The JSON body Zapier sends; every field is free text. */
  datatype MemberWebhook = MemberWebhook(
    email: string,
    name: string,
    status: string,    // "Succeeded", "Failed", ...
    anonymous: string  // "True", "False", ...
  )

  /** One row of the `members` table; `name` is NULL-able. */
  datatype Member = Member(
    id: nat,
    email: string,
    name: Option<string>,
    isAnonymous: bool,
    status: string,
    firstSeen: Timestamp,
    lastUpdated: Timestamp
  )

  datatype Stats = Stats(
    totalMembers: nat,
    activeMembers: nat,
    cancelledMembers: nat,
    anonymousMembers: nat
  )
}
