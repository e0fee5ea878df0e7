/**
  The PayPal webhook payload as the PayPal membership service decodes it.
  A field missing from the JSON is the empty string, as Go's zero value.
 */
module PayPalEvents {

  datatype Name = Name(givenName: string, surname: string)

  datatype Subscriber = Subscriber(emailAddress: string, payerId: string, name: Name)

  datatype PayerInfo = PayerInfo(email: string, payerId: string)

  datatype Payer = Payer(payerId: string, emailAddress: string, payerInfo: PayerInfo)

  /** A money amount; the value is kept as the decimal text PayPal sent. */
  datatype Amount = Amount(value: string, currencyCode: string)

  datatype Resource = Resource(
    id: string,                  // subscription id, or sale id for a payment
    status: string,
    customId: string,
    subscriber: Subscriber,
    billingAgreementId: string,  // subscription id of a payment
    amount: Amount,
    payer: Payer
  )

  datatype WebhookEvent = WebhookEvent(id: string, eventType: string, createTime: int, resource: Resource)

  const SubscriptionActivated := "BILLING.SUBSCRIPTION.ACTIVATED"
  const SubscriptionCancelled := "BILLING.SUBSCRIPTION.CANCELLED"
  const SubscriptionSuspended := "BILLING.SUBSCRIPTION.SUSPENDED"
  const SubscriptionReactivated := "BILLING.SUBSCRIPTION.RE-ACTIVATED"
  const PaymentSaleCompleted := "PAYMENT.SALE.COMPLETED"

  /** The event types the service acts on; every other type is ignored. */
  const HandledEventTypes: set<string> := {
    SubscriptionActivated, SubscriptionCancelled, SubscriptionSuspended,
    SubscriptionReactivated, PaymentSaleCompleted
  }

  datatype Config = Config(
    clientId: string,
    clientSecret: string,
    webhookId: string,
    baseUrl: string,
    databaseUrl: string,
    port: string
  )
}
